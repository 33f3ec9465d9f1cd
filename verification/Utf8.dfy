/**
 The byte strings the parser accepts as text: UTF-8 as the grammar in section 4 of RFC 3629
 gives it, and the proof that they are exactly the encodings of Unicode scalar values.
 */
module Utf8 {
  import opened Wire

  type Scalar = v: nat | v < 0xD800 || 0xE000 <= v <= 0x10_FFFF

  predicate IsTail(b: byte) {
    0x80 <= b <= 0xBF
  }

  predicate IsTwo(a: byte, b: byte) {
    0xC2 <= a <= 0xDF && IsTail(b)
  }

  predicate IsThree(a: byte, b: byte, c: byte) {
    && IsTail(c)
    && ((a == 0xE0 && 0xA0 <= b <= 0xBF) || (0xE1 <= a <= 0xEC && IsTail(b))
        || (a == 0xED && 0x80 <= b <= 0x9F) || (0xEE <= a <= 0xEF && IsTail(b)))
  }

  predicate IsFour(a: byte, b: byte, c: byte, d: byte) {
    && IsTail(c) && IsTail(d)
    && ((a == 0xF0 && 0x90 <= b <= 0xBF) || (0xF1 <= a <= 0xF3 && IsTail(b)) || (a == 0xF4 && 0x80 <= b <= 0x8F))
  }

  /** The length of the character that `s` starts with, or 0 if it starts with none. */
  function CharLength(s: seq<byte>): (n: nat)
    requires s != []
    ensures n <= |s|
  {
    if s[0] < 0x80 then 1
    else if |s| >= 2 && IsTwo(s[0], s[1]) then 2
    else if |s| >= 3 && IsThree(s[0], s[1], s[2]) then 3
    else if |s| >= 4 && IsFour(s[0], s[1], s[2], s[3]) then 4
    else 0
  }

  predicate ValidUtf8(s: seq<byte>)
    decreases |s|
  {
    s == [] || (CharLength(s) > 0 && ValidUtf8(s[CharLength(s)..]))
  }

  // ----- The characters behind the bytes -----

  function EncodeScalar(v: Scalar): (s: seq<byte>)
    ensures s != []
  {
    if v < 0x80 then [v]
    else if v < 0x800 then [0xC0 + v / 0x40, 0x80 + v % 0x40]
    else if v < 0x1_0000 then [0xE0 + v / 0x1000, 0x80 + v / 0x40 % 0x40, 0x80 + v % 0x40]
    else [0xF0 + v / 0x4_0000, 0x80 + v / 0x1000 % 0x40, 0x80 + v / 0x40 % 0x40, 0x80 + v % 0x40]
  }

  function EncodeScalars(vs: seq<Scalar>): seq<byte> {
    if vs == [] then [] else EncodeScalar(vs[0]) + EncodeScalars(vs[1..])
  }

  /** The bits of `b` below the power of two `m`. */
  ghost function Low(b: int, m: int): int
    requires m > 0
  {
    b % m
  }

  /** The bits of a character's bytes, most significant first, are the scalar value. */
  lemma BytesSpellScalar(v: Scalar)
    ensures var s := EncodeScalar(v);
      match |s|
      case 1 => v == s[0] < 0x80
      case 2 => 0xC0 <= s[0] < 0xE0 && v == Low(s[0], 0x20) * 0x40 + Low(s[1], 0x40)
      case 3 => 0xE0 <= s[0] < 0xF0 && v == Low(s[0], 0x10) * 0x1000 + Low(s[1], 0x40) * 0x40 + Low(s[2], 0x40)
      case 4 =>
        && 0xF0 <= s[0] < 0xF8
        && v == Low(s[0], 8) * 0x4_0000 + Low(s[1], 0x40) * 0x1000 + Low(s[2], 0x40) * 0x40 + Low(s[3], 0x40)
      case _ => false
    ensures forall i | 0 < i < |EncodeScalar(v)| :: 0x80 <= EncodeScalar(v)[i] < 0xC0
  {
    if v >= 0x80 {
      SplitBits(v);
      SplitBits(v / 0x40);
      SplitBits(v / 0x40 / 0x40);
      LeadBits(v);
      hide Low;
    }
  }

  lemma SplitBits(v: nat)
    ensures v == v / 0x40 * 0x40 + Low(0x80 + v % 0x40, 0x40)
    ensures v / 0x1000 == v / 0x40 / 0x40 && v / 0x4_0000 == v / 0x40 / 0x40 / 0x40
  {}

  lemma LeadBits(v: Scalar)
    ensures v < 0x800 ==> Low(0xC0 + v / 0x40, 0x20) == v / 0x40
    ensures v < 0x1_0000 ==> Low(0xE0 + v / 0x1000, 0x10) == v / 0x1000
    ensures Low(0xF0 + v / 0x4_0000, 8) == v / 0x4_0000
  {}

  lemma ScalarIsOneChar(v: Scalar, t: seq<byte>)
    ensures CharLength(EncodeScalar(v) + t) == |EncodeScalar(v)|
  {
    hide IsTwo, IsThree, IsFour;
    if 0x80 <= v < 0x800 {
      TwoBytes(v);
    } else if 0x800 <= v < 0x1_0000 {
      ThreeBytes(v);
    } else if 0x1_0000 <= v {
      FourBytes(v);
    }
  }

  lemma TwoBytes(v: Scalar)
    requires 0x80 <= v < 0x800
    ensures IsTwo(0xC0 + v / 0x40, 0x80 + v % 0x40)
  {}

  lemma ThreeBytes(v: Scalar)
    requires 0x800 <= v < 0x1_0000
    ensures var a, b, c := 0xE0 + v / 0x1000, 0x80 + v / 0x40 % 0x40, 0x80 + v % 0x40;
      !IsTwo(a, b) && IsThree(a, b, c)
  {}

  lemma FourBytes(v: Scalar)
    requires 0x1_0000 <= v
    ensures var a, b := 0xF0 + v / 0x4_0000, 0x80 + v / 0x1000 % 0x40;
      var c, d := 0x80 + v / 0x40 % 0x40, 0x80 + v % 0x40;
      !IsTwo(a, b) && !IsThree(a, b, c) && IsFour(a, b, c, d)
  {}

  lemma {:induction false} ScalarsAreValid(vs: seq<Scalar>)
    ensures ValidUtf8(EncodeScalars(vs))
  {
    if vs != [] {
      var first, rest := EncodeScalar(vs[0]), EncodeScalars(vs[1..]);
      ScalarIsOneChar(vs[0], rest);
      assert (first + rest)[|first|..] == rest;
      ScalarsAreValid(vs[1..]);
    }
  }

  lemma TwoIsScalar(a: int, b: int) returns (v: Scalar)
    requires 0 <= a < 256 && 0 <= b < 256 && IsTwo(a, b)
    ensures EncodeScalar(v) == [a, b]
  {
    v := (a - 0xC0) * 0x40 + (b - 0x80);
  }

  lemma ThreeIsScalar(a: int, b: int, c: int) returns (v: Scalar)
    requires 0 <= a < 256 && 0 <= b < 256 && 0 <= c < 256 && IsThree(a, b, c)
    ensures EncodeScalar(v) == [a, b, c]
  {
    v := (a - 0xE0) * 0x1000 + (b - 0x80) * 0x40 + (c - 0x80);
    assert v / 0x40 == (a - 0xE0) * 0x40 + (b - 0x80);
  }

  lemma FourIsScalar(a: int, b: int, c: int, d: int) returns (v: Scalar)
    requires 0 <= a < 256 && 0 <= b < 256 && 0 <= c < 256 && 0 <= d < 256 && IsFour(a, b, c, d)
    ensures EncodeScalar(v) == [a, b, c, d]
  {
    var x, y, z, w := a - 0xF0, b - 0x80, c - 0x80, d - 0x80;
    v := x * 0x4_0000 + y * 0x1000 + z * 0x40 + w;
    assert v >= 0x1_0000;
    hide IsFour;
    SixBits(x * 0x1000 + y * 0x40 + z, w);
    SixBits(x * 0x40 + y, z);
    SixBits(x, y);
    assert v / 0x1000 == v / 0x40 / 0x40 && v / 0x4_0000 == v / 0x40 / 0x40 / 0x40;
  }

  lemma SixBits(high: int, low: int)
    requires 0 <= low < 0x40
    ensures (high * 0x40 + low) / 0x40 == high && (high * 0x40 + low) % 0x40 == low
  {}

  /** The scalar value whose encoding a character is. */
  lemma CharIsScalar(s: seq<byte>) returns (v: Scalar)
    requires s != [] && CharLength(s) > 0
    ensures EncodeScalar(v) == s[..CharLength(s)]
  {
    hide EncodeScalar, IsTwo, IsThree, IsFour;
    match CharLength(s)
    case 1 => v := s[0]; ScalarBelow80(v);
    case 2 => v := TwoIsScalar(s[0], s[1]);
    case 3 => v := ThreeIsScalar(s[0], s[1], s[2]);
    case _ => v := FourIsScalar(s[0], s[1], s[2], s[3]);
  }

  lemma ScalarBelow80(v: Scalar)
    requires v < 0x80
    ensures EncodeScalar(v) == [v]
  {}

  lemma {:induction false} ValidAreScalars(s: seq<byte>) returns (vs: seq<Scalar>)
    requires ValidUtf8(s)
    ensures EncodeScalars(vs) == s
    decreases |s|
  {
    if s == [] {
      vs := [];
    } else {
      var n := CharLength(s);
      var v := CharIsScalar(s);
      var rest := ValidAreScalars(s[n..]);
      vs := [v] + rest;
      assert vs[1..] == rest;
      assert s == s[..n] + s[n..];
    }
  }

  /** Text is valid exactly when it encodes some sequence of scalar values. */
  lemma ValidUtf8Exactly(s: seq<byte>)
    ensures ValidUtf8(s) <==> exists vs :: EncodeScalars(vs) == s
  {
    if ValidUtf8(s) {
      var vs := ValidAreScalars(s);
    }
    if exists vs :: EncodeScalars(vs) == s {
      var vs :| EncodeScalars(vs) == s;
      ScalarsAreValid(vs);
    }
  }
}
