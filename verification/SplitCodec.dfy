/** The split-burn instruction: the encoder of quote-service/core.ts and the decoder of
    app/community-indexer.ts, which never sees more than the encoder's bytes. */
module SplitCodec {
  import opened Arith
  import opened Basics
  import opened Positional
  import Base58
  import SplitAmounts

  const DISCRIMINATOR: seq<byte> := [157, 45, 186, 225, 142, 17, 2, 105]
  const U16: nat := 0x1_0000
  const U32: nat := 0x1_0000_0000
  const U64: nat := 0x1_0000_0000_0000_0000

  /** A prepared leg as far as the instruction carries it: of the route accounts only their
      number is encoded. */
  datatype Leg = Leg(bps: nat, minimumOutput: nat, routeAccounts: nat, routeData: seq<byte>)

  datatype Split = Split(total: nat, weights: seq<nat>)

  predicate EncodableLeg(leg: Leg) {
    leg.bps < U16 && leg.minimumOutput < U64 && leg.routeAccounts <= 255 && |leg.routeData| < U32
  }

  predicate Encodable(total: nat, legs: seq<Leg>) {
    total < U64 && |legs| < U32 && forall i :: 0 <= i < |legs| ==> EncodableLeg(legs[i])
  }

  function LittleEndian(x: nat, n: nat): (s: seq<byte>)
    ensures |s| == n
  {
    Field(256, x, n)
  }

  function EncodeHeader(leg: Leg): (s: seq<byte>)
    requires EncodableLeg(leg)
    ensures |s| == 15
  {
    LittleEndian(leg.bps, 2) + LittleEndian(leg.minimumOutput, 8) + [leg.routeAccounts]
    + LittleEndian(|leg.routeData|, 4)
  }

  function EncodeLeg(leg: Leg): (s: seq<byte>)
    requires EncodableLeg(leg)
  {
    EncodeHeader(leg) + leg.routeData
  }

  function EncodeLegs(legs: seq<Leg>): seq<byte>
    requires forall i :: 0 <= i < |legs| ==> EncodableLeg(legs[i])
  {
    if legs == [] then [] else EncodeLeg(legs[0]) + EncodeLegs(legs[1..])
  }

  function Encode(total: nat, legs: seq<Leg>): seq<byte>
    requires Encodable(total, legs)
  {
    DISCRIMINATOR + LittleEndian(total, 8) + LittleEndian(|legs|, 4) + EncodeLegs(legs)
  }

  /** The encoder; None where it refuses the accounts or a fixed-width write throws. */
  method SplitData(total: nat, legs: seq<Leg>) returns (r: Option<seq<byte>>)
    ensures r == if Encodable(total, legs) then Some(Encode(total, legs)) else None
  {
    if total >= U64 || |legs| >= U32 { return None; }
    var parts: seq<byte> := DISCRIMINATOR + LittleEndian(total, 8) + LittleEndian(|legs|, 4);
    ghost var prefix := parts;
    for k := 0 to |legs|
      invariant forall i :: 0 <= i < k ==> EncodableLeg(legs[i])
      invariant parts == prefix + EncodeLegs(legs[..k])
    {
      var leg := legs[k];
      if leg.routeAccounts > 255 { return None; }
      if leg.bps >= U16 || leg.minimumOutput >= U64 || |leg.routeData| >= U32 { return None; }
      EncodeLegsSnoc(legs[..k], leg);
      assert legs[..k + 1] == legs[..k] + [leg];
      parts := parts + EncodeLeg(leg);
    }
    assert legs[..|legs|] == legs;
    r := Some(parts);
  }

  lemma {:induction false} EncodeLegsSnoc(legs: seq<Leg>, leg: Leg)
    requires EncodableLeg(leg) && forall i :: 0 <= i < |legs| ==> EncodableLeg(legs[i])
    ensures EncodeLegs(legs + [leg]) == EncodeLegs(legs) + EncodeLeg(leg)
  {
    if legs == [] {
      assert EncodeLegs([leg]) == EncodeLeg(leg) + EncodeLegs([]);
    } else {
      hide EncodeHeader; hide EncodableLeg;
      EncodeLegsSnoc(legs[1..], leg);
      assert (legs + [leg])[1..] == legs[1..] + [leg];
    }
  }

  // ---------------------------------------------------------------- reading

  function ReadU(bytes: seq<byte>, offset: nat, width: nat): Option<nat> {
    if offset + width > |bytes| then None else Some(ValueLE(256, bytes[offset..offset + width]))
  }

  method ReadU64(bytes: seq<byte>, offset: nat) returns (r: Option<nat>)
    ensures r == ReadU(bytes, offset, 8)
  {
    if offset + 8 > |bytes| { return None; }
    var value: nat := 0;
    var index := 8;
    ghost var field := bytes[offset..offset + 8];
    while index > 0
      invariant 0 <= index <= 8
      invariant value == ValueLE(256, field[index..])
    {
      index := index - 1;
      assert field[index..][1..] == field[index + 1..];
      value := value * 256 + bytes[offset + index];
    }
    assert field[0..] == field;
    r := Some(value);
  }

  function FirstLeg(bytes: seq<byte>): Leg
    requires |bytes| >= 15 && ValueLE(256, bytes[11..15]) <= |bytes| - 15
  {
    var length := ValueLE(256, bytes[11..15]);
    Leg(ValueLE(256, bytes[..2]), ValueLE(256, bytes[2..10]), bytes[10], bytes[15..15 + length])
  }

  /** Exactly `count` legs, to the last byte. */
  function ReadLegs(bytes: seq<byte>, count: nat): Option<seq<Leg>> {
    if count == 0 then if bytes == [] then Some([]) else None
    else if |bytes| < 15 then None
    else
      var length := ValueLE(256, bytes[11..15]);
      if length > |bytes| - 15 then None
      else match ReadLegs(bytes[15 + length..], count - 1)
           case None => None
           case Some(rest) =>
             Some([FirstLeg(bytes)] + rest)
  }

  function Weights(legs: seq<Leg>): (w: seq<nat>)
    ensures |w| == |legs|
  {
    seq(|legs|, i requires 0 <= i < |legs| => legs[i].bps)
  }

  function ReadWeights(bytes: seq<byte>, count: nat): Option<seq<nat>> {
    match ReadLegs(bytes, count)
    case None => None
    case Some(legs) => Some(Weights(legs))
  }

  function Prepend(first: seq<nat>, rest: Option<seq<nat>>): Option<seq<nat>> {
    match rest
    case None => None
    case Some(r) => Some(first + r)
  }

  /** One turn of the decoder's loop, as a statement about what remains to be read. */
  lemma ReadLegsStep(bytes: seq<byte>, cursor: nat, count: nat)
    requires count > 0 && cursor <= |bytes|
    ensures cursor + 15 > |bytes| ==> ReadWeights(bytes[cursor..], count) == None
    ensures cursor + 15 <= |bytes| ==>
              var next := cursor + 15 + ValueLE(256, bytes[cursor + 11..cursor + 15]);
              ReadWeights(bytes[cursor..], count)
              == if next > |bytes| then None
                 else Prepend([ValueLE(256, bytes[cursor..cursor + 2])], ReadWeights(bytes[next..], count - 1))
  {
    var here := bytes[cursor..];
    if cursor + 15 <= |bytes| {
      assert here[11..15] == bytes[cursor + 11..cursor + 15] && here[..2] == bytes[cursor..cursor + 2];
      var length := ValueLE(256, here[11..15]);
      if length <= |here| - 15 {
        assert here[15 + length..] == bytes[cursor + 15 + length..];
        var rest := ReadLegs(here[15 + length..], count - 1);
        if rest.Some? { assert Weights([FirstLeg(here)] + rest.value) == [FirstLeg(here).bps] + Weights(rest.value); }
      }
    }
  }

  lemma ReadNoLegs(bytes: seq<byte>)
    ensures ReadWeights(bytes, 0) == if bytes == [] then Some([]) else None
  {
  }

  lemma PrependAssociative(a: seq<nat>, b: seq<nat>, rest: Option<seq<nat>>)
    ensures Prepend(a, Prepend(b, rest)) == Prepend(a + b, rest)
  {
    if rest.Some? { assert a + (b + rest.value) == a + b + rest.value; }
  }

  predicate ValidWeights(weights: seq<nat>) {
    (forall i :: 0 <= i < |weights| ==> weights[i] > 0) && SplitAmounts.Sum(weights) == SplitAmounts.BPS_TOTAL
  }

  function DecodeBytes(bytes: seq<byte>): Option<Split> {
    if |bytes| < 20 || bytes[..8] != DISCRIMINATOR then None
    else
      var total := ValueLE(256, bytes[8..16]);
      var count := ValueLE(256, bytes[16..20]);
      if count < 1 || count > 4 || total == 0 then None
      else match ReadWeights(bytes[20..], count)
           case None => None
           case Some(weights) => if ValidWeights(weights) then Some(Split(total, weights)) else None
  }

  /** Instruction data as the RPC returns it, in base58. */
  function DecodeInstruction(data: string): Option<Split> {
    match Base58.Decode(data)
    case None => None
    case Some(bytes) => DecodeBytes(bytes)
  }

  method DecodeSplit(data: string) returns (r: Option<Split>)
    ensures r == DecodeInstruction(data)
  {
    var decoded := Base58.DecodeCarry(data);
    if decoded == None { return None; }
    r := ParseSplit(decoded.value);
  }

  method ParseSplit(bytes: seq<byte>) returns (r: Option<Split>)
    ensures r == DecodeBytes(bytes)
  {
    hide ValueLE;
    if |bytes| < 20 || bytes[..8] != DISCRIMINATOR { return None; }
    var total := ReadU64(bytes, 8);
    var legCount := ReadU(bytes, 16, 4);
    if legCount.value < 1 || legCount.value > 4 || total == Some(0) { return None; }
    var weights: seq<nat> := [];
    var cursor := 20;
    ghost var whole := ReadWeights(bytes[20..], legCount.value);
    assert whole.Some? ==> [] + whole.value == whole.value;
    for leg := 0 to legCount.value
      invariant 20 <= cursor <= |bytes|
      invariant whole == Prepend(weights, ReadWeights(bytes[cursor..], legCount.value - leg))
    {
      var bps := ReadU(bytes, cursor, 2);
      var routeLength := ReadU(bytes, cursor + 11, 4);
      ReadLegsStep(bytes, cursor, legCount.value - leg);
      if bps == None || routeLength == None { return None; }
      ghost var next := cursor + 15 + routeLength.value;
      if next <= |bytes| {
        PrependAssociative(weights, [bps.value], ReadWeights(bytes[next..], legCount.value - leg - 1));
      }
      weights := weights + [bps.value];
      cursor := cursor + 15;
      if routeLength.value > |bytes| - cursor { return None; }
      cursor := cursor + routeLength.value;
    }
    ReadNoLegs(bytes[cursor..]);
    if cursor != |bytes| { return None; }
    assert weights + [] == weights;
    if !ValidWeights(weights) { return None; }
    r := Some(Split(total.value, weights));
  }

  // ---------------------------------------------------------------- round trips

  lemma Widths()
    ensures Pow(256, 2) == U16 && Pow(256, 4) == U32 && Pow(256, 8) == U64
  {
    Width4();
    PowAdd(256, 4, 4);
    Square(Pow(256, 4), U32);
  }

  lemma Width4()
    ensures Pow(256, 2) == U16 && Pow(256, 4) == U32
  {
    PowAdd(256, 2, 2);
  }

  lemma Square(x: nat, y: nat)
    requires x == y
    ensures x * x == y * y
  {
  }

  /** A fixed-width field holds every value of its width, and only those. */
  lemma FieldRoundTrip(x: nat, n: nat)
    requires x < Pow(256, n)
    ensures ValueLE(256, LittleEndian(x, n)) == x
  {
    ValueOfField(256, x, n);
  }

  lemma FieldBytes(s: seq<byte>)
    ensures ValueLE(256, s) < Pow(256, |s|) && LittleEndian(ValueLE(256, s), |s|) == s
  {
    FieldOfValue(256, s);
  }

  lemma HeaderRoundTrip(leg: Leg)
    requires EncodableLeg(leg)
    ensures var h := EncodeHeader(leg);
            && ValueLE(256, h[..2]) == leg.bps
            && ValueLE(256, h[2..10]) == leg.minimumOutput
            && h[10] == leg.routeAccounts
            && ValueLE(256, h[11..15]) == |leg.routeData|
  {
    Widths();
    FieldRoundTrip(leg.bps, 2);
    FieldRoundTrip(leg.minimumOutput, 8);
    FieldRoundTrip(|leg.routeData|, 4);
    var h := EncodeHeader(leg);
    assert h[..2] == LittleEndian(leg.bps, 2);
    assert h[2..10] == LittleEndian(leg.minimumOutput, 8);
    assert h[11..15] == LittleEndian(|leg.routeData|, 4);
  }

  lemma HeaderSound(h: seq<byte>, leg: Leg)
    requires |h| == 15
    requires leg.bps == ValueLE(256, h[..2]) && leg.minimumOutput == ValueLE(256, h[2..10])
    requires leg.routeAccounts == h[10] && |leg.routeData| == ValueLE(256, h[11..15])
    ensures EncodableLeg(leg) && EncodeHeader(leg) == h
  {
    Widths();
    FieldBytes(h[..2]);
    FieldBytes(h[2..10]);
    FieldBytes(h[11..15]);
    assert h == h[..2] + h[2..10] + [h[10]] + h[11..15];
  }

  lemma FirstLegSound(bytes: seq<byte>)
    requires |bytes| >= 15 && ValueLE(256, bytes[11..15]) <= |bytes| - 15
    ensures EncodableLeg(FirstLeg(bytes))
    ensures EncodeLeg(FirstLeg(bytes)) == bytes[..15 + ValueLE(256, bytes[11..15])]
  {
    var h := bytes[..15];
    assert h[..2] == bytes[..2] && h[2..10] == bytes[2..10] && h[11..15] == bytes[11..15];
    HeaderSound(h, FirstLeg(bytes));
  }

  lemma FirstLegOf(leg: Leg, rest: seq<byte>)
    requires EncodableLeg(leg)
    ensures var bytes := EncodeLeg(leg) + rest;
            && |bytes| >= 15 && ValueLE(256, bytes[11..15]) == |leg.routeData| <= |bytes| - 15
            && FirstLeg(bytes) == leg
            && bytes[15 + |leg.routeData|..] == rest
  {
    HeaderRoundTrip(leg);
    var h, bytes := EncodeHeader(leg), EncodeLeg(leg) + rest;
    assert bytes[..2] == h[..2] && bytes[2..10] == h[2..10] && bytes[11..15] == h[11..15];
  }

  /** Reading back what was written returns the legs themselves. */
  lemma {:induction false} ReadEncodedLegs(legs: seq<Leg>)
    requires forall i :: 0 <= i < |legs| ==> EncodableLeg(legs[i])
    ensures ReadLegs(EncodeLegs(legs), |legs|) == Some(legs)
  {
    hide ValueLE; hide Field;
    if legs == [] {
    } else {
      FirstLegOf(legs[0], EncodeLegs(legs[1..]));
      ReadEncodedLegs(legs[1..]);
      assert [legs[0]] + legs[1..] == legs;
    }
  }

  lemma ConsSound(leg: Leg, legs: seq<Leg>)
    requires EncodableLeg(leg) && forall i :: 0 <= i < |legs| ==> EncodableLeg(legs[i])
    ensures forall i :: 0 <= i < |legs| + 1 ==> EncodableLeg(([leg] + legs)[i])
    ensures EncodeLegs([leg] + legs) == EncodeLeg(leg) + EncodeLegs(legs)
  {
    assert ([leg] + legs)[1..] == legs;
  }

  /** Whatever reads as legs is the encoding of those legs. */
  lemma {:induction false} ReadLegsSound(bytes: seq<byte>, count: nat)
    requires ReadLegs(bytes, count).Some?
    ensures var legs := ReadLegs(bytes, count).value;
            && |legs| == count
            && (forall i :: 0 <= i < count ==> EncodableLeg(legs[i]))
            && EncodeLegs(legs) == bytes
    decreases count
  {
    hide ValueLE; hide Field;
    if count == 0 {
    } else {
      var length := ValueLE(256, bytes[11..15]);
      ReadLegsSound(bytes[15 + length..], count - 1);
      FirstLegSound(bytes);
      ConsSound(FirstLeg(bytes), ReadLegs(bytes[15 + length..], count - 1).value);
    }
  }

  predicate ValidSplit(total: nat, legs: seq<Leg>) {
    && Encodable(total, legs)
    && total > 0
    && 1 <= |legs| <= 4
    && ValidWeights(Weights(legs))
  }

  lemma Cut(a: seq<byte>, b: seq<byte>, c: seq<byte>, d: seq<byte>)
    requires |a| == 8 && |b| == 8 && |c| == 4
    ensures var s := a + b + c + d;
            |s| >= 20 && s[..8] == a && s[8..16] == b && s[16..20] == c && s[20..] == d
  {
  }

  lemma EncodedParts(total: nat, legs: seq<Leg>)
    requires Encodable(total, legs)
    ensures var bytes := Encode(total, legs);
            && |bytes| >= 20 && bytes[..8] == DISCRIMINATOR
            && ValueLE(256, bytes[8..16]) == total
            && ValueLE(256, bytes[16..20]) == |legs|
            && bytes[20..] == EncodeLegs(legs)
  {
    Widths();
    FieldRoundTrip(total, 8);
    FieldRoundTrip(|legs|, 4);
    Cut(DISCRIMINATOR, LittleEndian(total, 8), LittleEndian(|legs|, 4), EncodeLegs(legs));
  }

  /** Where leg l starts behind the twenty bytes of prefix. */
  function LegOffset(legs: seq<Leg>, l: nat): nat
    requires l <= |legs|
  {
    if l == 0 then 0 else LegOffset(legs, l - 1) + 15 + |legs[l - 1].routeData|
  }

  lemma {:induction false} LegsUpTo(legs: seq<Leg>, l: nat)
    requires l <= |legs| && forall i :: 0 <= i < |legs| ==> EncodableLeg(legs[i])
    ensures |EncodeLegs(legs[..l])| == LegOffset(legs, l)
    ensures EncodeLegs(legs) == EncodeLegs(legs[..l]) + EncodeLegs(legs[l..])
  {
    hide *;
    if l == 0 {
      NoLegsYet(legs);
    } else {
      var leg := legs[l - 1];
      LegsUpTo(legs, l - 1);
      OneLegFurther(legs, l);
      var a, b, c := EncodeLegs(legs[..l - 1]), EncodeLeg(leg), EncodeLegs(legs[l..]);
      assert a + (b + c) == (a + b) + c;
    }
  }

  lemma NoLegsYet(legs: seq<Leg>)
    requires forall i :: 0 <= i < |legs| ==> EncodableLeg(legs[i])
    ensures EncodeLegs(legs[..0]) == [] && LegOffset(legs, 0) == 0 && EncodeLegs([]) + EncodeLegs(legs[0..]) == EncodeLegs(legs)
  {
    assert legs[0..] == legs;
  }

  lemma OneLegFurther(legs: seq<Leg>, l: nat)
    requires 0 < l <= |legs| && forall i :: 0 <= i < |legs| ==> EncodableLeg(legs[i])
    ensures EncodeLegs(legs[..l]) == EncodeLegs(legs[..l - 1]) + EncodeLeg(legs[l - 1])
    ensures EncodeLegs(legs[l - 1..]) == EncodeLeg(legs[l - 1]) + EncodeLegs(legs[l..])
    ensures LegOffset(legs, l) == LegOffset(legs, l - 1) + |EncodeLeg(legs[l - 1])|
  {
    EncodeLegsSnoc(legs[..l - 1], legs[l - 1]);
    assert legs[..l] == legs[..l - 1] + [legs[l - 1]];
    hide EncodeHeader;
    assert legs[l - 1..][0] == legs[l - 1] && legs[l - 1..][1..] == legs[l..];
  }

  /** The instruction byte by byte: the discriminator, the total, the number of legs, and per leg its
      weight, minimum output, route account count and data length, little-endian, then the data. */
  lemma WireLayout(total: nat, legs: seq<Leg>, l: nat)
    requires Encodable(total, legs) && l < |legs|
    ensures var bytes, at := Encode(total, legs), 20 + LegOffset(legs, l);
      && at + 15 + |legs[l].routeData| <= |bytes|
      && bytes[..8] == DISCRIMINATOR
      && ValueLE(256, bytes[8..16]) == total && ValueLE(256, bytes[16..20]) == |legs|
      && ValueLE(256, bytes[at..at + 2]) == legs[l].bps
      && ValueLE(256, bytes[at + 2..at + 10]) == legs[l].minimumOutput
      && bytes[at + 10] == legs[l].routeAccounts
      && ValueLE(256, bytes[at + 11..at + 15]) == |legs[l].routeData|
      && bytes[at + 15..at + 15 + |legs[l].routeData|] == legs[l].routeData
  {
    hide ValueLE; hide EncodeHeader;
    var bytes, at, n := Encode(total, legs), 20 + LegOffset(legs, l), |legs[l].routeData|;
    EncodedParts(total, legs);
    LegsUpTo(legs, l);
    HeaderRoundTrip(legs[l]);
    var h, tail := EncodeHeader(legs[l]), EncodeLegs(legs[l + 1..]);
    assert legs[l..][1..] == legs[l + 1..];
    assert EncodeLegs(legs[l..]) == h + legs[l].routeData + tail;
    var front := bytes[..20] + EncodeLegs(legs[..l]);
    assert bytes == bytes[..20] + bytes[20..];
    assert bytes == front + (h + legs[l].routeData + tail);
    LegSlices(front, h, legs[l].routeData, tail);
  }

  lemma LegSlices(front: seq<byte>, h: seq<byte>, data: seq<byte>, tail: seq<byte>)
    requires |h| == 15
    ensures var s, at := front + (h + data + tail), |front|;
            && s[at..at + 2] == h[..2] && s[at + 2..at + 10] == h[2..10] && s[at + 10] == h[10]
            && s[at + 11..at + 15] == h[11..15] && s[at + 15..at + 15 + |data|] == data
  {
    var s, at := front + (h + data + tail), |front|;
    assert s[at..] == h + data + tail;
    assert s[at..at + 15] == h;
    Cut15(s, at, h);
  }

  lemma Cut15(s: seq<byte>, at: nat, h: seq<byte>)
    requires at + 15 <= |s| && s[at..at + 15] == h
    ensures s[at..at + 2] == h[..2] && s[at + 2..at + 10] == h[2..10] && s[at + 10] == h[10] && s[at + 11..at + 15] == h[11..15]
  {
    forall k | 0 <= k < 15 ensures s[at + k] == h[k] { assert s[at..at + 15][k] == h[k]; }
  }

  /** No two instructions share their bytes. */
  lemma EncodeInjective(total: nat, legs: seq<Leg>, total': nat, legs': seq<Leg>)
    requires Encodable(total, legs) && Encodable(total', legs')
    requires Encode(total, legs) == Encode(total', legs')
    ensures total == total' && legs == legs'
  {
    EncodedParts(total, legs);
    EncodedParts(total', legs');
    ReadEncodedLegs(legs);
    ReadEncodedLegs(legs');
  }

  /** The decoder accepts an encoder output exactly when it is a valid split, and then
      recovers its total and weights. */
  lemma DecodeEncoded(total: nat, legs: seq<Leg>)
    requires Encodable(total, legs)
    ensures DecodeBytes(Encode(total, legs))
         == if ValidSplit(total, legs) then Some(Split(total, Weights(legs))) else None
  {
    EncodedParts(total, legs);
    ReadEncodedLegs(legs);
  }

  lemma PrefixSound(bytes: seq<byte>)
    requires |bytes| >= 20
    ensures ValueLE(256, bytes[8..16]) < U64 && ValueLE(256, bytes[16..20]) < U32
    ensures bytes == bytes[..8] + LittleEndian(ValueLE(256, bytes[8..16]), 8)
                     + LittleEndian(ValueLE(256, bytes[16..20]), 4) + bytes[20..]
  {
    hide ValueLE; hide Field;
    Widths();
    FieldBytes(bytes[8..16]);
    FieldBytes(bytes[16..20]);
    assert bytes == bytes[..8] + bytes[8..16] + bytes[16..20] + bytes[20..];
  }

  /** Every accepted byte string is the encoding of exactly one list of legs, consumed to its
      last byte. */
  lemma AcceptedIsEncoding(bytes: seq<byte>) returns (legs: seq<Leg>)
    requires DecodeBytes(bytes).Some?
    ensures var split := DecodeBytes(bytes).value;
            && ValidSplit(split.total, legs)
            && Weights(legs) == split.weights
            && Encode(split.total, legs) == bytes
            && forall total, others | Encodable(total, others) && Encode(total, others) == bytes ::
                 total == split.total && others == legs
  {
    hide ValueLE; hide Field;
    var total, count := ValueLE(256, bytes[8..16]), ValueLE(256, bytes[16..20]);
    legs := ReadLegs(bytes[20..], count).value;
    ReadLegsSound(bytes[20..], count);
    PrefixSound(bytes);
    forall total', legs' | Encodable(total', legs') && Encode(total', legs') == bytes
      ensures total' == total && legs' == legs
    {
      EncodeInjective(total, legs, total', legs');
    }
  }

  /** From the builder's legs to the indexer's split, through the base58 of the RPC. */
  lemma InstructionRoundTrip(total: nat, legs: seq<Leg>)
    requires ValidSplit(total, legs)
    ensures DecodeInstruction(Base58.Encode(Encode(total, legs))) == Some(Split(total, Weights(legs)))
  {
    Base58.DecodeEncode(Encode(total, legs));
    DecodeEncoded(total, legs);
  }

  /** A decoded call's shares are positive-weight shares of its total. */
  lemma DecodedIsValid(data: string)
    requires DecodeInstruction(data).Some?
    ensures var split := DecodeInstruction(data).value;
            split.total > 0 && 1 <= |split.weights| <= 4 && ValidWeights(split.weights)
  {
    var _ := AcceptedIsEncoding(Base58.Decode(data).value);
  }
}
