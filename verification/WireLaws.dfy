/**
 What the bytes and words of the wire format mean, in plain arithmetic: two's complement, base 128,
 little-endian, and which bytes a tag of each wire type takes.
 */
module WireLaws {
  import opened Wire

  // ----- Two's complement -----

  /** Every conversion keeps the number modulo the word it goes through; with its range that fixes the result. */
  lemma ConversionsAreModular(i: int32, j: int64, v: uint64)
    ensures (Extend64(j) - j) % 0x1_0000_0000_0000_0000 == 0
    ensures (v - ToInt64(v)) % 0x1_0000_0000_0000_0000 == 0
    ensures (v - ToInt32(v)) % 0x1_0000_0000 == 0
    ensures (Low32(i) - i) % 0x1_0000_0000 == 0
  {}

  // ----- Base 128 -----

  /** The number that seven-bit digits stand for, the first being the least significant. */
  ghost function Digits(b: seq<byte>): nat {
    if b == [] then 0
    else Digits(b[..|b| - 1]) + b[|b| - 1] % 128 * Pow128(|b| - 1)
  }

  /** The first `n` bytes are a varint: all but the last have the continuation bit. */
  ghost predicate IsVarint(b: seq<byte>, n: nat) {
    1 <= n <= |b| && b[n - 1] < 128 && forall i | 0 <= i < n - 1 :: b[i] >= 128
  }

  lemma {:induction false} DigitsCons(b: seq<byte>)
    requires b != []
    ensures Digits(b) == b[0] % 128 + 128 * Digits(b[1..])
  {
    if |b| == 1 {
      assert b[..0] == [] && b[1..] == [];
    } else {
      var last := |b| - 1;
      DigitsCons(b[..last]);
      assert b[..last][1..] == b[1..][..last - 1];
      Distribute(128, b[last] % 128, Pow128(last - 1));
    }
  }

  lemma Distribute(a: nat, d: nat, p: nat)
    ensures d * (a * p) == a * (d * p)
  {}

  lemma {:induction false} VarintValue(b: seq<byte>, n: nat, max: nat)
    requires IsVarint(b, n)
    ensures ReadVarint(b, max) == if n <= max then Got(Digits(b[..n]), b[n..]) else Bad
  {
    if max > 0 {
      DigitsCons(b[..n]);
      assert b[..n][1..] == b[1..][..n - 1];
      Continued(b[0]);
      if n > 1 {
        hide Digits;
        assert IsVarint(b[1..], n - 1);
        VarintValue(b[1..], n - 1, max - 1);
      } else {
        assert b[1..][..0] == [];
      }
    }
  }

  lemma Continued(b: byte)
    ensures b % 128 == if b < 128 then b else b - 128
  {}

  lemma {:induction false} EndlessVarint(b: seq<byte>, max: nat)
    requires forall i | 0 <= i < |b| && i < max :: b[i] >= 128
    ensures ReadVarint(b, max) == Bad
  {
    if max > 0 && b != [] {
      forall i | 0 <= i < |b[1..]| && i < max - 1 ensures b[1..][i] >= 128 { assert b[1..][i] == b[i + 1]; }
      EndlessVarint(b[1..], max - 1);
    }
  }

  /**
   What the three readers take a varint for, padded or not: a tag has at most five bytes and 32 bits,
   a number ten bytes and 64 bits, a length five bytes and at most INT_MAX - 16.
   */
  lemma ReadersExactly(b: seq<byte>, n: nat)
    requires IsVarint(b, n)
    ensures ReadTag(b) == if n <= 5 then Got(Digits(b[..n]) % 0x1_0000_0000, b[n..]) else Bad
    ensures ReadVarint64(b) == if n <= 10 then Got(Digits(b[..n]) % 0x1_0000_0000_0000_0000, b[n..]) else Bad
    ensures ReadSize(b) == if n <= 5 && Digits(b[..n]) <= 0x7FFF_FFFF - 16 then Got(Digits(b[..n]), b[n..]) else Bad
  {
    hide ReadVarint, Digits;
    VarintValue(b, n, 5);
    VarintValue(b, n, 10);
  }

  /** Bytes that all have the continuation bit are no tag, number or length. */
  lemma ReadersNeedAnEnd(b: seq<byte>)
    requires forall n :: !IsVarint(b, n)
    ensures ReadTag(b) == Bad && ReadVarint64(b) == Bad && ReadSize(b) == Bad
  {
    NoEnd(b, |b|);
    EndlessVarint(b, 5);
    EndlessVarint(b, 10);
  }

  lemma {:induction false} NoEnd(b: seq<byte>, n: nat)
    requires n <= |b| && forall k :: !IsVarint(b, k)
    ensures forall i | 0 <= i < n :: b[i] >= 128
  {
    if n > 0 {
      NoEnd(b, n - 1);
      assert !IsVarint(b, n);
    }
  }

  // ----- Wire types -----

  /** After a tag comes the payload of the wire type in its low three bits; wire type 4 has none. */
  lemma AfterTag(num: nat, wireType: nat, t: seq<byte>)
    requires 1 <= num < 0x2000_0000 && wireType < 8
    ensures var d := ReadPayload(wireType, t);
      ReadRecord(Varint(8 * num + wireType) + t)
      == if wireType != 4 && d.Got? then Got(Record(num, d.value), d.rest) else Bad
  {
    hide ReadTag, ReadPayload, Varint;
    var tag := 8 * num + wireType;
    ReadOfTag(tag, t);
    assert tag / 8 == num && tag % 8 == wireType;
  }

  lemma ReadOfTag(tag: uint32, t: seq<byte>)
    ensures ReadTag(Varint(tag) + t) == Got(tag, t)
  {
    hide ReadVarint, Varint, VarintSize;
    WordSizes(tag);
    ReadBackVarint(tag, t, 5);
  }

  /** Four bytes as a number, the first being the least significant. */
  ghost function Word(a: int, b: int, c: int, d: int): int {
    a + 0x100 * b + 0x1_0000 * c + 0x100_0000 * d
  }

  /** Wire type 0 is a number, wire type 2 a length and that many bytes; 3, 4, 6 and 7 have no payload. */
  lemma VariablePayloads(t: seq<byte>)
    ensures var d := ReadVarint64(t);
      ReadPayload(0, t) == if d.Got? then Got(Number(d.value), d.rest) else Bad
    ensures var d := ReadSize(t);
      ReadPayload(2, t)
      == if d.Got? && d.value <= |d.rest| then Got(Bytes(d.rest[..d.value]), d.rest[d.value..]) else Bad
    ensures forall w | w >= 3 && w != 5 :: ReadPayload(w, t) == Bad
  {
    hide ReadVarint64, ReadSize;
  }

  /** Wire type 5 takes exactly four bytes, least significant first, wire type 1 exactly eight. */
  lemma FixedPayloads(t: seq<byte>)
    ensures |t| < 4 ==> ReadPayload(5, t) == Bad
    ensures |t| >= 4 ==> var d := ReadPayload(5, t);
      d.Got? && d.rest == t[4..] && d.value.Fixed32? && d.value.w == Word(t[0], t[1], t[2], t[3])
    ensures |t| < 8 ==> ReadPayload(1, t) == Bad
    ensures |t| >= 8 ==> var d := ReadPayload(1, t);
      && d.Got? && d.rest == t[8..] && d.value.Fixed64?
      && d.value.q == Word(t[0], t[1], t[2], t[3]) + 0x1_0000_0000 * Word(t[4], t[5], t[6], t[7])
  {
    hide FromLittleEndian, Word;
    if |t| >= 4 { FourBytes(t[..4]); }
    if |t| >= 8 { EightBytes(t[..8]); }
  }

  lemma FourBytes(b: seq<byte>)
    requires |b| == 4
    ensures FromLittleEndian(b) == Word(b[0], b[1], b[2], b[3])
  {
    hide FromLittleEndian;
    LittleEndianFrom(b, 0);
    LittleEndianFrom(b, 1);
    LittleEndianFrom(b, 2);
    LittleEndianFrom(b, 3);
    LittleEndianFrom(b, 4);
    assert b[0..] == b;
  }

  lemma EightBytes(b: seq<byte>)
    requires |b| == 8
    ensures FromLittleEndian(b) == Word(b[0], b[1], b[2], b[3]) + 0x1_0000_0000 * Word(b[4], b[5], b[6], b[7])
  {
    hide FromLittleEndian;
    FourBytes(b[4..]);
    LittleEndianFrom(b, 0);
    LittleEndianFrom(b, 1);
    LittleEndianFrom(b, 2);
    LittleEndianFrom(b, 3);
    assert b[0..] == b;
  }

  // ----- What is read needs nothing after it -----

  lemma {:induction false} VarintPrefix(b: seq<byte>, max: nat)
    requires ReadVarint(b, max).Got?
    ensures var n := |b| - |ReadVarint(b, max).rest|;
      b[n..] == ReadVarint(b, max).rest && ReadVarint(b[..n], max) == Got(ReadVarint(b, max).value, [])
  {
    var n := |b| - |ReadVarint(b, max).rest|;
    if b[0] >= 128 {
      VarintPrefix(b[1..], max - 1);
      assert b[..n][1..] == b[1..][..n - 1];
    } else {
      assert b[..1][1..] == [];
    }
  }

  lemma PayloadPrefix(wireType: nat, b: seq<byte>)
    requires ReadPayload(wireType, b).Got?
    ensures var n := |b| - |ReadPayload(wireType, b).rest|;
      && b[n..] == ReadPayload(wireType, b).rest
      && ReadPayload(wireType, b[..n]) == Got(ReadPayload(wireType, b).value, [])
  {
    hide ReadVarint, FromLittleEndian;
    var n := |b| - |ReadPayload(wireType, b).rest|;
    match wireType
    case 0 => VarintPrefix(b, 10);
    case 1 => assert b[..8][..8] == b[..8] && b[..8][8..] == [];
    case 2 => BytesPrefix(b);
    case 5 => assert b[..4][..4] == b[..4] && b[..4][4..] == [];
    case _ =>
  }

  /** The same bytes read as a length whatever follows them. */
  lemma SizePrefix(b: seq<byte>, d: seq<byte>)
    requires ReadSize(b).Got?
    ensures var k := |b| - |ReadSize(b).rest|;
      b[k..] == ReadSize(b).rest && ReadSize(b[..k] + d) == Got(ReadSize(b).value, d)
  {
    hide ReadVarint;
    var k := |b| - |ReadSize(b).rest|;
    VarintPrefix(b, 5);
    VarintAppend(b[..k], d, 5);
    assert [] + d == d;
  }

  lemma BytesPrefix(b: seq<byte>)
    requires ReadPayload(2, b).Got?
    ensures var n := |b| - |ReadPayload(2, b).rest|;
      b[n..] == ReadPayload(2, b).rest && ReadPayload(2, b[..n]) == Got(ReadPayload(2, b).value, [])
  {
    hide ReadSize;
    var size, rest := ReadSize(b).value, ReadSize(b).rest;
    var k, d := |b| - |rest|, rest[..size];
    SizePrefix(b, d);
    assert b[..k + size] == b[..k] + d && b[k + size..] == rest[size..];
    assert d[..size] == d && d[size..] == [];
  }

  /** A record read from the front is read from its own bytes alone as well. */
  lemma RecordPrefix(b: seq<byte>)
    requires ReadRecord(b).Got?
    ensures var n := |b| - |ReadRecord(b).rest|;
      b[n..] == ReadRecord(b).rest && ReadRecord(b[..n]) == Got(ReadRecord(b).value, [])
  {
    hide ReadVarint, ReadPayload;
    VarintPrefix(b, 5);
    var tag, rest := ReadTag(b).value, ReadTag(b).rest;
    PayloadPrefix(tag % 8, rest);
    var k, n := |b| - |rest|, |b| - |ReadRecord(b).rest|;
    VarintAppend(b[..k], rest[..n - k], 5);
    assert b[..n] == b[..k] + rest[..n - k] && [] + rest[..n - k] == rest[..n - k];
  }
}
