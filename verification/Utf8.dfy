/** Characters and strings on the wire: UTF-8 as section 3 of RFC 3629 defines it, and the bit
    assembly of the decoder. */
module Utf8 {
  import opened Bytes

  /** Unicode scalar values, the values of a `char`. */
  predicate IsScalar(c: nat) {
    c < 0x110000 && !(0xD800 <= c < 0xE000)
  }

  /** `char::encode_utf8`. */
  function EncodeChar(c: nat): (b: bytes)
    requires IsScalar(c)
    ensures 1 <= |b| <= 4
  {
    if c < 0x80 then [c]
    else if c < 0x800 then [0xC0 + c / 64, 0x80 + c % 64]
    else if c < 0x10000 then [0xE0 + c / 4096, 0x80 + c / 64 % 64, 0x80 + c % 64]
    else [0xF0 + c / 262144, 0x80 + c / 4096 % 64, 0x80 + c / 64 % 64, 0x80 + c % 64]
  }

  /** How many bytes the decoder requests after a leading byte. */
  function Continuation(leading: byte): Option<nat> {
    if leading <= 0x7F then Some(0)
    else if 0xC0 <= leading <= 0xDF then Some(1)
    else if 0xE0 <= leading <= 0xEF then Some(2)
    else if 0xF0 <= leading <= 0xF7 then Some(3)
    else None
  }

  predicate IsContinuation(b: byte) {
    0x80 <= b < 0xC0
  }

  function Low(b: byte, modulus: nat): nat
    requires modulus > 0
  {
    b as int % modulus
  }

  /** `decode_char_from_bytes`, for every number of continuation bytes it is called with; the masks
      and shifts are remainders and factors, see `BitsAreDigits`. */
  function DecodeChar(leading: byte, remaining: bytes): Option<nat>
    requires 1 <= |remaining| <= 3
  {
    if exists i :: 0 <= i < |remaining| && !IsContinuation(remaining[i]) then None
    else Some(
      match |remaining|
      case 1 => Low(leading, 32) * 64 + Low(remaining[0], 64)
      case 2 => Low(leading, 16) * 4096 + Low(remaining[0], 64) * 64 + Low(remaining[1], 64)
      case _ => Low(leading, 8) * 262144 + Low(remaining[0], 64) * 4096 + Low(remaining[1], 64) * 64
                + Low(remaining[2], 64))
  }

  // The decoder works with masks and shifts of bytes and 32-bit words.

  lemma TwoPlaces(l: bv8, a: bv8)
    ensures (((l as bv32 & 0x1F) << 6) | (a & 0x3F) as bv32) as nat == (l & 0x1F) as nat * 64 + (a & 0x3F) as nat
  {
  }

  lemma ThreePlaces(l: bv8, a: bv8, b: bv8)
    ensures (((l as bv32 & 0x0F) << 12) | ((a & 0x3F) as bv32 << 6) | (b & 0x3F) as bv32) as nat
         == (l & 0x0F) as nat * 4096 + (a & 0x3F) as nat * 64 + (b & 0x3F) as nat
  {
  }

  lemma FourPlaces(l: bv8, a: bv8, b: bv8, c: bv8)
    ensures (((l as bv32 & 0x07) << 18) | ((a & 0x3F) as bv32 << 12) | ((b & 0x3F) as bv32 << 6)
             | (c & 0x3F) as bv32) as nat
         == (l & 0x07) as nat * 262144 + (a & 0x3F) as nat * 4096 + (b & 0x3F) as nat * 64 + (c & 0x3F) as nat
  {
  }

  lemma LeadOfTwo(b: bv8)
    ensures (b & 0x1F) as nat == b as nat % 32
  {
  }

  lemma LeadOfThree(b: bv8)
    ensures (b & 0x0F) as nat == b as nat % 16
  {
  }

  lemma LeadOfFour(b: bv8)
    ensures (b & 0x07) as nat == b as nat % 8
  {
  }

  lemma Continued(b: bv8)
    ensures (b & 0x3F) as nat == b as nat % 64
    ensures b & 0xC0 == 0x80 <==> 0x80 <= b as nat < 0xC0
  {
  }

  /** The number assembled from a leading byte and one to three more is the one that the masks and
      shifts of the decoder give. */
  lemma BitsAreDigits(l: bv8, a: bv8, b: bv8, c: bv8)
    ensures DecodeChar(l as nat, [a as nat])
         == if a & 0xC0 == 0x80 then Some((((l as bv32 & 0x1F) << 6) | (a & 0x3F) as bv32) as nat) else None
    ensures DecodeChar(l as nat, [a as nat, b as nat])
         == if a & 0xC0 == 0x80 && b & 0xC0 == 0x80
            then Some((((l as bv32 & 0x0F) << 12) | ((a & 0x3F) as bv32 << 6) | (b & 0x3F) as bv32) as nat)
            else None
    ensures DecodeChar(l as nat, [a as nat, b as nat, c as nat])
         == if a & 0xC0 == 0x80 && b & 0xC0 == 0x80 && c & 0xC0 == 0x80
            then Some((((l as bv32 & 0x07) << 18) | ((a & 0x3F) as bv32 << 12) | ((b & 0x3F) as bv32 << 6)
                       | (c & 0x3F) as bv32) as nat)
            else None
  {
    TwoByteBits(l, a);
    ThreeByteBits(l, a, b);
    FourByteBits(l, a, b, c);
  }

  lemma TwoByteBits(l: bv8, a: bv8)
    ensures DecodeChar(l as nat, [a as nat])
         == if a & 0xC0 == 0x80 then Some((((l as bv32 & 0x1F) << 6) | (a & 0x3F) as bv32) as nat) else None
  {
    hide DecodeChar;
    LeadOfTwo(l);
    Continued(a);
    TwoPlaces(l, a);
    AssembledByPlace(l as nat, a as nat, a as nat, a as nat);
  }

  lemma ThreeByteBits(l: bv8, a: bv8, b: bv8)
    ensures DecodeChar(l as nat, [a as nat, b as nat])
         == if a & 0xC0 == 0x80 && b & 0xC0 == 0x80
            then Some((((l as bv32 & 0x0F) << 12) | ((a & 0x3F) as bv32 << 6) | (b & 0x3F) as bv32) as nat)
            else None
  {
    hide DecodeChar;
    LeadOfThree(l);
    Continued(a);
    Continued(b);
    ThreePlaces(l, a, b);
    AssembledByPlace(l as nat, a as nat, b as nat, b as nat);
  }

  lemma FourByteBits(l: bv8, a: bv8, b: bv8, c: bv8)
    ensures DecodeChar(l as nat, [a as nat, b as nat, c as nat])
         == if a & 0xC0 == 0x80 && b & 0xC0 == 0x80 && c & 0xC0 == 0x80
            then Some((((l as bv32 & 0x07) << 18) | ((a & 0x3F) as bv32 << 12) | ((b & 0x3F) as bv32 << 6)
                       | (c & 0x3F) as bv32) as nat)
            else None
  {
    hide DecodeChar;
    LeadOfFour(l);
    Continued(a);
    Continued(b);
    Continued(c);
    FourPlaces(l, a, b, c);
    AssembledByPlace(l as nat, a as nat, b as nat, c as nat);
  }

  lemma AssembledByPlace(l: byte, a: byte, b: byte, c: byte)
    ensures DecodeChar(l, [a]) == if IsContinuation(a) then Some(l % 32 * 64 + a % 64) else None
    ensures DecodeChar(l, [a, b])
         == if IsContinuation(a) && IsContinuation(b) then Some(l % 16 * 4096 + a % 64 * 64 + b % 64) else None
    ensures DecodeChar(l, [a, b, c])
         == if IsContinuation(a) && IsContinuation(b) && IsContinuation(c)
            then Some(l % 8 * 262144 + a % 64 * 4096 + b % 64 * 64 + c % 64) else None
  {
    var s1, s2, s3: bytes := [a], [a, b], [a, b, c];
    assert s1[0] == a;
    assert s2[0] == a && s2[1] == b;
    assert s3[0] == a && s3[1] == b && s3[2] == c;
  }

  lemma DigitBase(c: nat)
    requires c < 0x110000
    ensures c == c / 64 * 64 + c % 64
    ensures c == c / 4096 * 4096 + c / 64 % 64 * 64 + c % 64
    ensures c == c / 262144 * 262144 + c / 4096 % 64 * 4096 + c / 64 % 64 * 64 + c % 64
  {
    assert c / 64 == c / 4096 * 64 + c / 64 % 64;
    assert c / 4096 == c / 262144 * 64 + c / 4096 % 64;
  }

  // Digits to the base 64 come back from the bytes that carry them.

  lemma OneDigit(l: nat, x: nat)
    requires l < 32 && x < 64
    ensures DecodeChar(0xC0 + l, [0x80 + x]) == Some(l * 64 + x)
  {
    AssembledByPlace(0xC0 + l, 0x80 + x, 0, 0);
  }

  lemma TwoDigits(l: nat, x: nat, y: nat)
    requires l < 16 && x < 64 && y < 64
    ensures DecodeChar(0xE0 + l, [0x80 + x, 0x80 + y]) == Some(l * 4096 + x * 64 + y)
  {
    AssembledByPlace(0xE0 + l, 0x80 + x, 0x80 + y, 0);
  }

  lemma ThreeDigits(l: nat, x: nat, y: nat, z: nat)
    requires l < 8 && x < 64 && y < 64 && z < 64
    ensures DecodeChar(0xF0 + l, [0x80 + x, 0x80 + y, 0x80 + z]) == Some(l * 262144 + x * 4096 + y * 64 + z)
  {
    AssembledByPlace(0xF0 + l, 0x80 + x, 0x80 + y, 0x80 + z);
  }

  /** Every scalar value comes back from its one to four bytes, and the leading byte asks for
      exactly the bytes that were written after it. */
  lemma CharRoundTrip(c: nat)
    requires IsScalar(c)
    ensures var b := EncodeChar(c);
      && Continuation(b[0]) == Some(|b| - 1)
      && (|b| == 1 ==> b[0] == c)
      && (|b| > 1 ==> DecodeChar(b[0], b[1..]) == Some(c))
  {
    var b := EncodeChar(c);
    DigitBase(c);
    if 0x80 <= c < 0x800 {
      OneDigit(c / 64, c % 64);
      assert b[1..] == [b[1]];
    } else if 0x800 <= c < 0x10000 {
      TwoDigits(c / 4096, c / 64 % 64, c % 64);
      assert b[1..] == [b[1], b[2]];
    } else if 0x10000 <= c {
      ThreeDigits(c / 262144, c / 4096 % 64, c / 64 % 64, c % 64);
      assert b[1..] == [b[1], b[2], b[3]];
    }
  }

  // What the decoder makes of bytes that are no UTF-8. It asks for well-formed continuation bytes and
  // for nothing else.

  /** The bytes that do not make a surrogate, in three bytes or in four, nor a number above
      0x10FFFF. */
  predicate InScalarRange(leading: byte, remaining: bytes) {
    && leading <= 0xF4
    && (leading == 0xED && |remaining| == 2 ==> remaining[0] < 0xA0)
    && (leading == 0xF0 && |remaining| == 3 && remaining[0] == 0x8D ==> remaining[1] < 0xA0)
    && (leading == 0xF4 && |remaining| == 3 ==> remaining[0] < 0x90)
  }

  /** The leading and second bytes that rule out a character with a shorter form. */
  predicate IsShortest(leading: byte, second: byte) {
    leading >= 0xC2 && (leading == 0xE0 ==> second >= 0xA0) && (leading == 0xF0 ==> second >= 0x90)
  }

  lemma DecodedNumber(leading: byte, remaining: bytes) returns (l: nat, x: nat, y: nat, z: nat)
    requires Continuation(leading) == Some(|remaining|) && |remaining| > 0
    requires DecodeChar(leading, remaining).Some?
    ensures x < 64 && remaining[0] == 0x80 + x
    ensures y < 64 && (|remaining| >= 2 ==> remaining[1] == 0x80 + y)
    ensures z < 64 && (|remaining| >= 3 ==> remaining[2] == 0x80 + z)
    ensures match |remaining|
      case 1 => leading == 0xC0 + l && DecodeChar(leading, remaining).value == l * 64 + x
      case 2 => leading == 0xE0 + l && DecodeChar(leading, remaining).value == l * 4096 + x * 64 + y
      case _ => leading == 0xF0 + l && DecodeChar(leading, remaining).value == l * 262144 + x * 4096 + y * 64 + z
  {
    hide DecodeChar;
    var n := |remaining|;
    AllContinue(leading, remaining);
    l := leading as int - (if n == 1 then 0xC0 else if n == 2 then 0xE0 else 0xF0);
    x := remaining[0] as int - 0x80;
    y := if n >= 2 then remaining[1] as int - 0x80 else 0;
    z := if n >= 3 then remaining[2] as int - 0x80 else 0;
    if n == 1 {
      OneDigit(l, x);
      assert remaining == [0x80 + x];
    } else if n == 2 {
      TwoDigits(l, x, y);
      assert remaining == [0x80 + x, 0x80 + y];
    } else {
      ThreeDigits(l, x, y, z);
      assert remaining == [0x80 + x, 0x80 + y, 0x80 + z];
    }
  }

  lemma AllContinue(leading: byte, remaining: bytes)
    requires 1 <= |remaining| <= 3 && DecodeChar(leading, remaining).Some?
    ensures forall i :: 0 <= i < |remaining| ==> IsContinuation(remaining[i])
  {
  }

  /** The decoder returns a scalar value exactly if the bytes are in range; otherwise the
      number it hands out as a `char` is none. */
  lemma DecodedCharIsScalarIff(leading: byte, remaining: bytes)
    requires Continuation(leading) == Some(|remaining|) && |remaining| > 0
    requires DecodeChar(leading, remaining).Some?
    ensures IsScalar(DecodeChar(leading, remaining).value) <==> InScalarRange(leading, remaining)
  {
    var l, x, y, z := DecodedNumber(leading, remaining);
  }

  /** The bytes are the ones that encoding the result would write exactly if they are moreover the
      shortest form. */
  lemma DecodedCharIsCanonicalIff(leading: byte, remaining: bytes)
    requires Continuation(leading) == Some(|remaining|) && |remaining| > 0
    requires DecodeChar(leading, remaining).Some? && IsScalar(DecodeChar(leading, remaining).value)
    ensures EncodeChar(DecodeChar(leading, remaining).value) == [leading] + remaining
        <==> IsShortest(leading, remaining[0])
  {
    var l, x, y, z := DecodedNumber(leading, remaining);
    var b := EncodeChar(DecodeChar(leading, remaining).value);
    assert |b| == 1 + |remaining| <==> IsShortest(leading, remaining[0]);
    if |b| == 1 + |remaining| {
      DigitsOf(l, x, y, z);
      assert b == [leading] + remaining;
    }
  }

  lemma DigitsOf(l: nat, x: nat, y: nat, z: nat)
    requires x < 64 && y < 64 && z < 64
    ensures (l * 64 + x) / 64 == l && (l * 64 + x) % 64 == x
    ensures var c := l * 4096 + x * 64 + y; c / 4096 == l && c / 64 % 64 == x && c % 64 == y
    ensures var c := l * 262144 + x * 4096 + y * 64 + z;
      c / 262144 == l && c / 4096 % 64 == x && c / 64 % 64 == y && c % 64 == z
  {
    var c, d := l * 4096 + x * 64 + y, l * 262144 + x * 4096 + y * 64 + z;
    assert c / 64 == l * 64 + x;
    assert d / 64 == l * 4096 + x * 64 + y;
    assert d / 4096 == l * 64 + x;
  }

  /** `String::from_utf8` accepts exactly the sequences of well-formed characters. */
  predicate ValidUtf8(b: bytes) {
    b == [] ||
    match Continuation(b[0])
    case None => false
    case Some(n) =>
      && n < |b|
      && (n > 0 ==>
            var c := DecodeChar(b[0], b[1..1 + n]);
            c.Some? && IsScalar(c.value) && EncodeChar(c.value) == b[..1 + n])
      && ValidUtf8(b[1 + n..])
  }

  function EncodeChars(cs: seq<nat>): bytes
    requires forall i :: 0 <= i < |cs| ==> IsScalar(cs[i])
  {
    if cs == [] then [] else EncodeChar(cs[0]) + EncodeChars(cs[1..])
  }

  /** The bytes of every string are accepted back. */
  lemma {:induction false} EncodedCharsAreValid(cs: seq<nat>)
    requires forall i :: 0 <= i < |cs| ==> IsScalar(cs[i])
    ensures ValidUtf8(EncodeChars(cs))
  {
    if cs != [] {
      var b, rest := EncodeChar(cs[0]), EncodeChars(cs[1..]);
      CharRoundTrip(cs[0]);
      EncodedCharsAreValid(cs[1..]);
      var n := |b| - 1;
      assert (b + rest)[1..1 + n] == b[1..] && (b + rest)[..1 + n] == b && (b + rest)[1 + n..] == rest;
    }
  }

  predicate AreScalars(cs: seq<nat>) {
    forall i :: 0 <= i < |cs| ==> IsScalar(cs[i])
  }

  /** Accepted bytes begin with the encoding of a scalar value, and accepted bytes follow. */
  lemma FirstChar(b: bytes) returns (c: nat, rest: bytes)
    requires b != [] && ValidUtf8(b)
    ensures IsScalar(c) && b == EncodeChar(c) + rest && ValidUtf8(rest)
  {
    var n := Continuation(b[0]).value;
    rest := b[1 + n..];
    assert b == b[..1 + n] + rest;
    if n == 0 {
      c := b[0];
      assert b[..1] == [b[0]];
    } else {
      c := DecodeChar(b[0], b[1..1 + n]).value;
    }
  }

  lemma {:induction false} ValidIsEncoded(b: bytes) returns (cs: seq<nat>)
    requires ValidUtf8(b)
    ensures AreScalars(cs) && EncodeChars(cs) == b
  {
    if b == [] {
      cs := [];
    } else {
      var c, rest := FirstChar(b);
      var later := ValidIsEncoded(rest);
      cs := [c] + later;
      assert cs[0] == c && cs[1..] == later;
    }
  }

  /** The bytes accepted are exactly the encodings of sequences of scalar values. */
  lemma ValidUtf8Iff(b: bytes)
    ensures ValidUtf8(b) <==> exists cs: seq<nat> :: AreScalars(cs) && EncodeChars(cs) == b
  {
    if ValidUtf8(b) {
      var cs := ValidIsEncoded(b);
    }
    forall cs: seq<nat> | AreScalars(cs) && EncodeChars(cs) == b ensures ValidUtf8(b) {
      EncodedCharsAreValid(cs);
    }
  }
}
