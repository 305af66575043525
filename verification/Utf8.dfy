// Well-formed UTF-8: the byte sequences of section 4 of RFC 3629, and why they are
// the right ones: they are what the encoder of section 3 writes for scalar values.
module Utf8 {
  import opened Bytes

  predicate In(b: bytes, i: nat, low: byte, high: byte) {
    i < |b| && low <= b[i] <= high
  }

  predicate Tail(b: bytes, i: nat) {
    In(b, i, 0x80, 0xBF)
  }

  // The length of the character at the front of `b`, or 0 when there is none.
  function CharLength(b: bytes): (n: nat)
    ensures n <= |b|
  {
    if In(b, 0, 0x00, 0x7F) then 1
    else if In(b, 0, 0xC2, 0xDF) && Tail(b, 1) then 2
    else if Tail(b, 2) &&
            (|| (In(b, 0, 0xE0, 0xE0) && In(b, 1, 0xA0, 0xBF))
             || (In(b, 0, 0xE1, 0xEC) && Tail(b, 1))
             || (In(b, 0, 0xED, 0xED) && In(b, 1, 0x80, 0x9F))
             || (In(b, 0, 0xEE, 0xEF) && Tail(b, 1))) then 3
    else if Tail(b, 2) && Tail(b, 3) &&
            (|| (In(b, 0, 0xF0, 0xF0) && In(b, 1, 0x90, 0xBF))
             || (In(b, 0, 0xF1, 0xF3) && Tail(b, 1))
             || (In(b, 0, 0xF4, 0xF4) && In(b, 1, 0x80, 0x8F))) then 4
    else 0
  }

  predicate Valid(b: bytes) {
    b == [] || (CharLength(b) > 0 && Valid(b[CharLength(b)..]))
  }

  // ------------------------------------------------------------------ the encoder

  // A code point that is no surrogate.
  predicate Scalar(c: nat) {
    c <= 0xD7FF || 0xE000 <= c <= 0x10FFFF
  }

  // Section 3: the bits of a character, six to each byte behind the first.
  function EncodeChar(c: nat): (b: bytes)
    requires Scalar(c)
    ensures 1 <= |b| <= 4
  {
    var c0, c1, c2, c3 := c % 64, c / 64 % 64, c / 64 / 64 % 64, c / 64 / 64 / 64;
    if c < 0x80 then [c]
    else if c < 0x800 then [0xC0 + c / 64, 0x80 + c0]
    else if c < 0x1_0000 then [0xE0 + c / 64 / 64, 0x80 + c1, 0x80 + c0]
    else [0xF0 + c3, 0x80 + c2, 0x80 + c1, 0x80 + c0]
  }

  predicate Scalars(cs: seq<nat>) {
    forall i :: 0 <= i < |cs| ==> Scalar(cs[i])
  }

  function EncodeChars(cs: seq<nat>): bytes
    requires Scalars(cs)
  {
    if cs == [] then [] else EncodeChar(cs[0]) + EncodeChars(cs[1..])
  }

  // The scalar value of the character at the front.
  function DecodeChar(b: bytes): nat
    requires CharLength(b) > 0
  {
    match CharLength(b)
    case 1 => b[0]
    case 2 => Digits(0, 0, b[0] as int - 0xC0, b[1] as int - 0x80)
    case 3 => Digits(0, b[0] as int - 0xE0, b[1] as int - 0x80, b[2] as int - 0x80)
    case _ => Digits(b[0] as int - 0xF0, b[1] as int - 0x80, b[2] as int - 0x80, b[3] as int - 0x80)
  }

  function Digits(c3: nat, c2: nat, c1: nat, c0: nat): nat {
    ((c3 * 64 + c2) * 64 + c1) * 64 + c0
  }

  lemma DigitsAre(c3: nat, c2: nat, c1: nat, c0: nat)
    requires c2 < 64 && c1 < 64 && c0 < 64
    ensures var c := Digits(c3, c2, c1, c0);
            && c % 64 == c0 && c / 64 % 64 == c1 && c / 64 / 64 % 64 == c2 && c / 64 / 64 / 64 == c3
            && c / 64 == (c3 * 64 + c2) * 64 + c1 && c / 64 / 64 == c3 * 64 + c2
  {
    var x2 := c3 * 64 + c2;
    var x1 := x2 * 64 + c1;
    assert (x1 * 64 + c0) / 64 == x1 && (x2 * 64 + c1) / 64 == x2 && (c3 * 64 + c2) / 64 == c3;
  }

  lemma DigitsOf(c: nat)
    ensures c == Digits(c / 64 / 64 / 64, c / 64 / 64 % 64, c / 64 % 64, c % 64)
  {
  }

  lemma TwoDigits(c1: nat, c0: nat)
    requires 2 <= c1 < 32 && c0 < 64
    ensures var c := Digits(0, 0, c1, c0); Scalar(c) && EncodeChar(c) == [0xC0 + c1, 0x80 + c0]
  {
    DigitsAre(0, 0, c1, c0);
  }

  lemma ThreeDigits(c2: nat, c1: nat, c0: nat)
    requires c2 < 16 && c1 < 64 && c0 < 64 && (c2 > 0 || c1 >= 32) && (c2 == 13 ==> c1 < 32)
    ensures var c := Digits(0, c2, c1, c0); Scalar(c) && EncodeChar(c) == [0xE0 + c2, 0x80 + c1, 0x80 + c0]
  {
    DigitsAre(0, c2, c1, c0);
  }

  lemma FourDigits(c3: nat, c2: nat, c1: nat, c0: nat)
    requires c3 <= 4 && c2 < 64 && c1 < 64 && c0 < 64 && (c3 > 0 || c2 >= 16) && (c3 == 4 ==> c2 < 16)
    ensures var c := Digits(c3, c2, c1, c0); Scalar(c) && EncodeChar(c) == [0xF0 + c3, 0x80 + c2, 0x80 + c1, 0x80 + c0]
  {
    DigitsAre(c3, c2, c1, c0);
  }

  lemma DecodedEncodes(b: bytes)
    requires CharLength(b) > 0
    ensures Scalar(DecodeChar(b)) && EncodeChar(DecodeChar(b)) == b[..CharLength(b)]
  {
    assert CharLength(b) == 1 ==> EncodeChar(b[0]) == [b[0]];
    hide Digits, EncodeChar;
    match CharLength(b)
    case 1 =>
    case 2 => TwoDigits(b[0] as int - 0xC0, b[1] as int - 0x80);
    case 3 => ThreeDigits(b[0] as int - 0xE0, b[1] as int - 0x80, b[2] as int - 0x80);
    case _ => FourDigits(b[0] as int - 0xF0, b[1] as int - 0x80, b[2] as int - 0x80, b[3] as int - 0x80);
  }

  lemma EncodedIsChar(c: nat, rest: bytes)
    requires Scalar(c)
    ensures CharLength(EncodeChar(c) + rest) == |EncodeChar(c)|
    ensures DecodeChar(EncodeChar(c) + rest) == c
  {
    DigitsOf(c);
  }

  lemma {:induction false} EncodedIsValid(cs: seq<nat>)
    requires Scalars(cs)
    ensures Valid(EncodeChars(cs))
    decreases |cs|
  {
    if cs != [] {
      var front, rest := EncodeChar(cs[0]), EncodeChars(cs[1..]);
      EncodedIsChar(cs[0], rest);
      EncodedIsValid(cs[1..]);
      assert (front + rest)[|front|..] == rest;
      hide CharLength, EncodeChar;
    }
  }

  lemma {:induction false} ValidIsEncoded(b: bytes) returns (cs: seq<nat>)
    requires Valid(b)
    ensures Scalars(cs) && EncodeChars(cs) == b
    decreases |b|
  {
    if b == [] {
      cs := [];
    } else {
      var n := CharLength(b);
      DecodedEncodes(b);
      var rest := ValidIsEncoded(b[n..]);
      hide CharLength, EncodeChar, DecodeChar, Scalar;
      OneMore(DecodeChar(b), rest);
      assert b == b[..n] + b[n..];
      cs := [DecodeChar(b)] + rest;
    }
  }

  lemma OneMore(c: nat, cs: seq<nat>)
    requires Scalar(c) && Scalars(cs)
    ensures Scalars([c] + cs) && EncodeChars([c] + cs) == EncodeChar(c) + EncodeChars(cs)
  {
    assert ([c] + cs)[1..] == cs;
  }

  // Exactly the strings of scalar values are accepted.
  lemma ValidIffEncoded(b: bytes)
    ensures Valid(b) <==> exists cs: seq<nat> :: Scalars(cs) && EncodeChars(cs) == b
  {
    if Valid(b) { var cs := ValidIsEncoded(b); }
    forall cs: seq<nat> | Scalars(cs) && EncodeChars(cs) == b ensures Valid(b) { EncodedIsValid(cs); }
  }

  // And each by one string only.
  lemma {:induction false} EncodeCharsInjective(cs: seq<nat>, ds: seq<nat>)
    requires Scalars(cs) && Scalars(ds) && EncodeChars(cs) == EncodeChars(ds)
    ensures cs == ds
    decreases |cs|
  {
    if cs != [] && ds != [] {
      var a, b := EncodeChars(cs[1..]), EncodeChars(ds[1..]);
      EncodedIsChar(cs[0], a);
      EncodedIsChar(ds[0], b);
      assert a == (EncodeChar(cs[0]) + a)[|EncodeChar(cs[0])|..];
      assert b == (EncodeChar(ds[0]) + b)[|EncodeChar(ds[0])|..];
      hide CharLength, EncodeChar, DecodeChar;
      EncodeCharsInjective(cs[1..], ds[1..]);
    }
  }
}
