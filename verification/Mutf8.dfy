/**
  Modified UTF-8 as DEX strings use it: NUL takes two bytes, and a scalar value
  above U+FFFF is a surrogate pair of two three-byte sequences.
 */
module Mutf8 {
  import opened Bytes
  import opened Leb128

  /** A Unicode scalar value. */
  type Scalar = x: int | 0 <= x < 0xD800 || 0xE000 <= x < 0x11_0000

  const REPLACEMENT: Scalar := 0xFFFD

  // ----- decoding -----

  predicate IsContinuation(b: byte) {
    0x80 <= b < 0xC0
  }

  predicate IsTwoByteLead(b: byte) {
    0xC0 <= b < 0xE0
  }

  predicate IsThreeByteLead(b: byte) {
    0xE0 <= b < 0xF0
  }

  function Join2(b0: byte, b1: byte): (u: nat)
    ensures u < 0x800
  {
    b0 % 0x20 * 0x40 + b1 % 0x40
  }

  function Join3(b0: byte, b1: byte, b2: byte): (u: nat)
    ensures u < 0x1_0000
  {
    b0 % 0x10 * 0x1000 + b1 % 0x40 * 0x40 + b2 % 0x40
  }

  /** The scalar value `u`, or the replacement character for a surrogate. */
  function ScalarOr(u: nat): Scalar
    requires u < 0x1_0000
  {
    if 0xD800 <= u < 0xE000 then REPLACEMENT else u
  }

  /** What decoding does at one position: emit a character and move on, or emit
      a last one and give up. */
  datatype Step = Emit(c: Scalar, width: nat) | Last(c: Scalar)

  /** The code unit of a well-formed three-byte sequence at `i`. */
  function UnitAt(bytes: seq<byte>, i: nat): (u: Option<nat>)
    ensures u.Some? ==> i + 3 <= |bytes| && u.value < 0x1_0000
  {
    if i + 3 <= |bytes| && IsThreeByteLead(bytes[i]) && IsContinuation(bytes[i + 1]) && IsContinuation(bytes[i + 2])
    then Some(Join3(bytes[i], bytes[i + 1], bytes[i + 2]))
    else None
  }

  predicate IsHighSurrogate(u: nat) {
    0xD800 <= u < 0xDC00
  }

  predicate IsLowSurrogate(u: nat) {
    0xDC00 <= u < 0xE000
  }

  function StepAt(bytes: seq<byte>, i: nat): (s: Step)
    requires i < |bytes|
    ensures s.Emit? ==> 0 < s.width <= |bytes| - i
  {
    var b0 := bytes[i];
    if b0 < 0x80 then Emit(b0, 1)
    else if IsTwoByteLead(b0) then
      if i + 2 > |bytes| then Last(REPLACEMENT)
      else if !IsContinuation(bytes[i + 1]) then Emit(REPLACEMENT, 1)
      else Emit(Join2(b0, bytes[i + 1]), 2)
    else if IsThreeByteLead(b0) then
      if i + 3 > |bytes| then Last(REPLACEMENT)
      else
        match UnitAt(bytes, i)
        case None => Emit(REPLACEMENT, 1)
        case Some(high) =>
          match UnitAt(bytes, i + 3)
          case Some(low) =>
            if IsHighSurrogate(high) && IsLowSurrogate(low) then Emit(JoinPair(high, low), 6)
            else Emit(ScalarOr(high), 3)
          case None => Emit(ScalarOr(high), 3)
    else Emit(REPLACEMENT, 1)
  }

  function JoinPair(high: nat, low: nat): (c: Scalar)
    requires IsHighSurrogate(high) && IsLowSurrogate(low)
    ensures c >= 0x1_0000
  {
    0x1_0000 + (high - 0xD800) * 0x400 + (low - 0xDC00)
  }

  function DecodeFrom(bytes: seq<byte>, i: nat): seq<Scalar>
    requires i <= |bytes|
    decreases |bytes| - i
  {
    if i == |bytes| then []
    else
      match StepAt(bytes, i)
      case Emit(c, width) => [c] + DecodeFrom(bytes, i + width)
      case Last(c) => [c]
  }

  function Decode(bytes: seq<byte>): seq<Scalar> {
    DecodeFrom(bytes, 0)
  }

  // ----- encoding -----

  function Encode3(u: nat): (s: seq<byte>)
    requires u < 0x1_0000
    ensures |s| == 3
  {
    [0xE0 + u / 0x1000, 0x80 + u / 0x40 % 0x40, 0x80 + u % 0x40]
  }

  function EncodeScalar(c: Scalar): (s: seq<byte>)
    ensures |s| > 0
  {
    if c == 0 || 0x80 <= c < 0x800 then [0xC0 + c / 0x40, 0x80 + c % 0x40]
    else if c < 0x80 then [c]
    else if c < 0x1_0000 then Encode3(c)
    else Encode3(HighOf(c)) + Encode3(LowOf(c))
  }

  function HighOf(c: Scalar): (u: nat)
    requires c >= 0x1_0000
    ensures IsHighSurrogate(u)
  {
    0xD800 + (c - 0x1_0000) / 0x400
  }

  function LowOf(c: Scalar): (u: nat)
    requires c >= 0x1_0000
    ensures IsLowSurrogate(u)
  {
    0xDC00 + (c - 0x1_0000) % 0x400
  }

  function Encode(s: seq<Scalar>): seq<byte> {
    if s == [] then [] else EncodeScalar(s[0]) + Encode(s[1..])
  }

  // ----- decoding inverts encoding -----

  lemma Join3OfEncode3(u: nat)
    requires u < 0x1_0000
    ensures var e := Encode3(u); Join3(e[0], e[1], e[2]) == u
  {
    var q := u / 0x40;
    assert u == 0x40 * q + u % 0x40;
    assert q == 0x40 * (q / 0x40) + q % 0x40;
    assert q / 0x40 == u / 0x1000;
  }

  lemma UnitOfEncode3(bytes: seq<byte>, i: nat, u: nat)
    requires u < 0x1_0000
    requires Holds(bytes, i, Encode3(u))
    ensures UnitAt(bytes, i) == Some(u)
  {
    hide Join3;
    var e := Encode3(u);
    Join3OfEncode3(u);
    assert bytes[i..i + 3][0] == e[0] && bytes[i..i + 3][1] == e[1] && bytes[i..i + 3][2] == e[2];
  }

  lemma PairRoundTrip(c: Scalar)
    requires c >= 0x1_0000
    ensures JoinPair(HighOf(c), LowOf(c)) == c
  {
  }

  lemma StepOfShort(bytes: seq<byte>, i: nat, c: Scalar)
    requires c < 0x800
    requires Holds(bytes, i, EncodeScalar(c))
    ensures i < |bytes| && StepAt(bytes, i) == Emit(c, |EncodeScalar(c)|)
  {
    var e := EncodeScalar(c);
    assert bytes[i] == bytes[i..i + |e|][0] == e[0];
    if |e| == 2 {
      assert bytes[i + 1] == bytes[i..i + |e|][1] == e[1];
    }
  }

  lemma LeadOfUnit(bytes: seq<byte>, i: nat)
    requires UnitAt(bytes, i).Some?
    ensures IsThreeByteLead(bytes[i])
  {
  }

  /** One encoded character decodes in one step, whatever follows it. */
  lemma StepOfEncoding(bytes: seq<byte>, i: nat, c: Scalar)
    requires Holds(bytes, i, EncodeScalar(c))
    ensures i < |bytes| && StepAt(bytes, i) == Emit(c, |EncodeScalar(c)|)
  {
    if c < 0x800 {
      StepOfShort(bytes, i, c);
    } else if c < 0x1_0000 {
      hide Holds, Encode3, UnitAt;
      UnitOfEncode3(bytes, i, c);
      LeadOfUnit(bytes, i);
    } else {
      hide Holds, Encode3, UnitAt, JoinPair, HighOf, LowOf;
      HoldsSplit(bytes, i, Encode3(HighOf(c)), Encode3(LowOf(c)));
      UnitOfEncode3(bytes, i, HighOf(c));
      UnitOfEncode3(bytes, i + 3, LowOf(c));
      LeadOfUnit(bytes, i);
      PairRoundTrip(c);
    }
  }

  lemma {:induction false} DecodeEncodedFrom(bytes: seq<byte>, i: nat, s: seq<Scalar>)
    requires Holds(bytes, i, Encode(s)) && i + |Encode(s)| == |bytes|
    ensures DecodeFrom(bytes, i) == s
    decreases |s|
  {
    hide StepAt, EncodeScalar, Holds;
    if s != [] {
      HoldsSplit(bytes, i, EncodeScalar(s[0]), Encode(s[1..]));
      HoldsLength(bytes, i + |EncodeScalar(s[0])|, Encode(s[1..]));
      StepOfEncoding(bytes, i, s[0]);
      DecodeEncodedFrom(bytes, i + |EncodeScalar(s[0])|, s[1..]);
      assert [s[0]] + s[1..] == s;
    }
  }

  /** Decoding returns every string of scalar values from its encoding. */
  lemma DecodeInvertsEncode(s: seq<Scalar>)
    ensures Decode(Encode(s)) == s
  {
    var bytes := Encode(s);
    assert bytes[0..0 + |bytes|] == bytes;
    DecodeEncodedFrom(bytes, 0, s);
  }

  /** An encoding never contains the terminator. */
  lemma {:induction false} EncodingHasNoNul(s: seq<Scalar>)
    ensures 0 !in Encode(s)
    decreases |s|
  {
    if s != [] {
      EncodingHasNoNul(s[1..]);
      assert 0 !in EncodeScalar(s[0]);
    }
  }

  // ----- malformed bytes -----

  /** Malformed bytes become the replacement character, one for each byte that
      cannot start a sequence and for each lead byte that is not followed by what
      it needs; decoding goes on at the next byte, except that a lead byte with
      too few bytes after it ends it. */
  lemma MalformedIs(bytes: seq<byte>, i: nat)
    requires i < |bytes|
    ensures var b0, left := bytes[i], |bytes| - i;
            && (0x80 <= b0 < 0xC0 || b0 >= 0xF0 ==> DecodeFrom(bytes, i) == [0xFFFD] + DecodeFrom(bytes, i + 1))
            && (0xC0 <= b0 < 0xE0 && left == 1 ==> DecodeFrom(bytes, i) == [0xFFFD])
            && (0xC0 <= b0 < 0xE0 && left >= 2 && !(0x80 <= bytes[i + 1] < 0xC0) ==>
                  DecodeFrom(bytes, i) == [0xFFFD] + DecodeFrom(bytes, i + 1))
            && (0xE0 <= b0 < 0xF0 && left < 3 ==> DecodeFrom(bytes, i) == [0xFFFD])
            && (0xE0 <= b0 < 0xF0 && left >= 3 && !(0x80 <= bytes[i + 1] < 0xC0 && 0x80 <= bytes[i + 2] < 0xC0) ==>
                  DecodeFrom(bytes, i) == [0xFFFD] + DecodeFrom(bytes, i + 1))
  {
    hide Join2, Join3, JoinPair;
  }

  /** A three-byte sequence for a surrogate that is no half of a pair becomes one
      replacement character; two-byte and other three-byte sequences stand for
      their bits, shortest or not. */
  lemma WellFormedIs(bytes: seq<byte>, i: nat)
    requires i < |bytes|
    ensures 0xC0 <= bytes[i] < 0xE0 && i + 2 <= |bytes| && 0x80 <= bytes[i + 1] < 0xC0 ==>
              && 0 <= (bytes[i] as int - 0xC0) * 0x40 + (bytes[i + 1] as int - 0x80) < 0x800
              && DecodeFrom(bytes, i) == [(bytes[i] as int - 0xC0) * 0x40 + (bytes[i + 1] as int - 0x80)] + DecodeFrom(bytes, i + 2)
    ensures UnitAt(bytes, i).Some? ==>
              && UnitAt(bytes, i).value == (bytes[i] as int - 0xE0) * 0x1000 + (bytes[i + 1] as int - 0x80) * 0x40 + (bytes[i + 2] as int - 0x80)
              && (0xD800 <= UnitAt(bytes, i).value < 0xE000
                  && !(UnitAt(bytes, i).value < 0xDC00 && UnitAt(bytes, i + 3).Some? && 0xDC00 <= UnitAt(bytes, i + 3).value < 0xE000) ==>
                    DecodeFrom(bytes, i) == [0xFFFD] + DecodeFrom(bytes, i + 3))
              && (!(0xD800 <= UnitAt(bytes, i).value < 0xE000) ==>
                    DecodeFrom(bytes, i) == [UnitAt(bytes, i).value] + DecodeFrom(bytes, i + 3))
  {
    hide JoinPair;
    UnitIs(bytes, i);
    if 0xC0 <= bytes[i] < 0xE0 && i + 2 <= |bytes| && 0x80 <= bytes[i + 1] < 0xC0 {
      TwoIs(bytes, i);
    }
  }

  lemma UnitIs(bytes: seq<byte>, i: nat)
    ensures UnitAt(bytes, i).Some? <==>
              i + 3 <= |bytes| && 0xE0 <= bytes[i] < 0xF0 && 0x80 <= bytes[i + 1] < 0xC0 && 0x80 <= bytes[i + 2] < 0xC0
    ensures UnitAt(bytes, i).Some? ==>
              UnitAt(bytes, i).value == (bytes[i] as int - 0xE0) * 0x1000 + (bytes[i + 1] as int - 0x80) * 0x40 + (bytes[i + 2] as int - 0x80)
  {
  }

  lemma TwoIs(bytes: seq<byte>, i: nat)
    requires i < |bytes| && 0xC0 <= bytes[i] < 0xE0 && i + 2 <= |bytes| && 0x80 <= bytes[i + 1] < 0xC0
    ensures StepAt(bytes, i) == Emit((bytes[i] as int - 0xC0) * 0x40 + (bytes[i + 1] as int - 0x80), 2)
  {
  }

  // ----- string data -----

  /** Index of the first zero byte at or after `i`. */
  function FirstNul(data: seq<byte>, i: nat): (r: Option<nat>)
    requires i <= |data|
    ensures r.Some? ==> i <= r.value < |data| && data[r.value] == 0
    decreases |data| - i
  {
    if i == |data| then None else if data[i] == 0 then Some(i) else FirstNul(data, i + 1)
  }

  /** `read_string_data`: a length in UTF-16 units, which is skipped, then
      characters up to the terminator. */
  function ReadStringData(data: seq<byte>, offset: u32): (r: Result<seq<Scalar>>) {
    if offset >= |data| then Err(OutOfBounds)
    else
      var (utf16Len, pos) :- ReadUleb128(data, offset);
      match FirstNul(data, pos)
      case None => Err(OutOfBounds)
      case Some(nul) => Ok(Decode(data[pos..nul]))
  }

  lemma {:induction false} FirstNulIs(data: seq<byte>, i: nat, nul: nat)
    requires i <= nul < |data| && data[nul] == 0
    requires forall k :: i <= k < nul ==> data[k] != 0
    ensures FirstNul(data, i) == Some(nul)
    decreases nul - i
  {
    if i < nul {
      FirstNulIs(data, i + 1, nul);
    }
  }

  /** A string item anywhere in a file reads back as the string, whatever length
      it claims. */
  lemma StringDataRoundTrip(data: seq<byte>, offset: u32, claimed: u32, s: seq<Scalar>)
    requires Holds(data, offset, EncodeUleb(claimed) + Encode(s) + [0])
    ensures ReadStringData(data, offset) == Ok(s)
  {
    hide EncodeUleb, Encode, ReadUleb128, Decode;
    var len := EncodeUleb(claimed);
    var chars := Encode(s);
    HoldsSplit(data, offset, len + chars, [0]);
    HoldsSplit(data, offset, len, chars);
    UlebRoundTrip(data, offset, claimed);
    var pos := offset + |len|;
    var nul := pos + |chars|;
    EncodingHasNoNul(s);
    forall k | pos <= k < nul
      ensures data[k] != 0
    {
      assert data[k] == data[pos..nul][k - pos] == chars[k - pos];
    }
    assert data[nul] == data[nul..nul + 1][0] == 0;
    FirstNulIs(data, pos, nul);
    DecodeInvertsEncode(s);
  }

  // ----- the loop -----

  /** `decode_mutf8`. */
  method DecodeMutf8(bytes: seq<byte>) returns (out: seq<Scalar>)
    ensures out == Decode(bytes)
  {
    hide UnitAt, JoinPair, Join2, Join3;
    out := [];
    var i := 0;
    while i < |bytes|
      invariant 0 <= i <= |bytes|
      invariant out + DecodeFrom(bytes, i) == Decode(bytes)
      decreases |bytes| - i
    {
      var b0 := bytes[i];
      if b0 < 0x80 {
        out, i := Pushed(bytes, i, out, b0, 1), i + 1;
        continue;
      }
      if IsTwoByteLead(b0) {
        if i + 2 > |bytes| {
          out := out + [REPLACEMENT];
          return;
        }
        if !IsContinuation(bytes[i + 1]) {
          out, i := Pushed(bytes, i, out, REPLACEMENT, 1), i + 1;
          continue;
        }
        out, i := Pushed(bytes, i, out, Join2(b0, bytes[i + 1]), 2), i + 2;
        continue;
      }
      if IsThreeByteLead(b0) {
        if i + 3 > |bytes| {
          out := out + [REPLACEMENT];
          return;
        }
        var high := UnitAt(bytes, i);
        if high.None? {
          out, i := Pushed(bytes, i, out, REPLACEMENT, 1), i + 1;
          continue;
        }
        var low := UnitAt(bytes, i + 3);
        if low.Some? && IsHighSurrogate(high.value) && IsLowSurrogate(low.value) {
          out, i := Pushed(bytes, i, out, JoinPair(high.value, low.value), 6), i + 6;
          continue;
        }
        out, i := Pushed(bytes, i, out, ScalarOr(high.value), 3), i + 3;
        continue;
      }
      out, i := Pushed(bytes, i, out, REPLACEMENT, 1), i + 1;
    }
  }

  /** One emitted character moves from what is still to decode to `out`. */
  function Pushed(bytes: seq<byte>, i: nat, out: seq<Scalar>, c: Scalar, width: nat): (r: seq<Scalar>)
    requires i < |bytes| && StepAt(bytes, i) == Emit(c, width)
    ensures r + DecodeFrom(bytes, i + width) == out + DecodeFrom(bytes, i)
  {
    out + [c]
  }
}
