/**
 The wire format below the message classes: base-128 varints, fixed-width little-endian
 numbers, length-delimited payloads, and the records (tag plus payload) built from them.
 Readers take the bytes still to be read and give back the value and the bytes after it.
 */
module Wire {

  type byte = b: int | 0 <= b < 256

  const POW31: int := 0x8000_0000
  const POW32: int := 0x1_0000_0000
  const POW63: int := 0x8000_0000_0000_0000
  const POW64: int := 0x1_0000_0000_0000_0000

  type int32 = i: int | -POW31 <= i < POW31
  type int64 = i: int | -POW63 <= i < POW63
  type uint32 = v: nat | v < POW32
  type uint64 = v: nat | v < POW64

  /** The largest length a reader accepts: INT_MAX less the 16 slop bytes of the input buffer. */
  const MAX_SIZE: int := 0x7FFF_FFFF - 16

  /** The outcome of reading one item from the front of some bytes. */
  datatype Decoded<+T> = Got(value: T, rest: seq<byte>) | Bad

  datatype Option<+T> = None | Some(value: T)

  // ----- Integer conversions -----

  /** Conversion of a 64-bit word to int32: keep the low 32 bits, two's complement. */
  function ToInt32(v: nat): int32 {
    var low := v % POW32;
    if low < POW31 then low else low - POW32
  }

  function ToInt64(v: uint64): int64 {
    if v < POW63 then v else v - POW64
  }

  /** Sign extension to 64 bits, which is how a negative int32 or int64 is written. */
  function Extend64(i: int64): uint64 {
    if i >= 0 then i else i + POW64
  }

  /** The low 32 bits of an int32. */
  function Low32(i: int32): uint32 {
    if i >= 0 then i else i + POW32
  }

  lemma NarrowingUndoesWidening(i: int32, j: int64)
    ensures ToInt32(Extend64(i)) == i && ToInt32(Low32(i)) == i
    ensures ToInt64(Extend64(j)) == j
  {
    if i < 0 {
      assert Extend64(i) == (POW32 - 1) * POW32 + (i + POW32);
    }
  }

  // ----- Varints -----

  function Varint(v: nat): (s: seq<byte>)
    ensures |s| >= 1
  {
    if v < 128 then [v] else [v % 128 + 128] + Varint(v / 128)
  }

  function VarintSize(v: nat): (n: nat)
    ensures n >= 1
  {
    if v < 128 then 1 else 1 + VarintSize(v / 128)
  }

  /** Reads a varint of at most `max` bytes; the value is not yet cut to a word. */
  function ReadVarint(b: seq<byte>, max: nat): (d: Decoded<nat>)
    ensures d.Got? ==> |d.rest| < |b|
  {
    if max == 0 || b == [] then Bad
    else if b[0] < 128 then Got(b[0], b[1..])
    else match ReadVarint(b[1..], max - 1)
      case Bad => Bad
      case Got(v, rest) => Got(b[0] - 128 + 128 * v, rest)
  }

  function ReadVarint64(b: seq<byte>): (d: Decoded<uint64>)
    ensures d.Got? ==> |d.rest| < |b|
  {
    match ReadVarint(b, 10)
    case Bad => Bad
    case Got(v, rest) => Got(v % POW64, rest)
  }

  function ReadTag(b: seq<byte>): (d: Decoded<uint32>)
    ensures d.Got? ==> |d.rest| < |b|
  {
    match ReadVarint(b, 5)
    case Bad => Bad
    case Got(v, rest) => Got(v % POW32, rest)
  }

  /** A length prefix: at most five bytes and at most MAX_SIZE. */
  function ReadSize(b: seq<byte>): (d: Decoded<nat>)
    ensures d.Got? ==> |d.rest| < |b| && d.value <= MAX_SIZE
  {
    match ReadVarint(b, 5)
    case Bad => Bad
    case Got(v, rest) => if v <= MAX_SIZE then Got(v, rest) else Bad
  }

  lemma {:induction false} VarintLength(v: nat)
    ensures |Varint(v)| == VarintSize(v)
  {
    if v >= 128 { VarintLength(v / 128); }
  }

  ghost function Pow128(n: nat): nat {
    if n == 0 then 1 else 128 * Pow128(n - 1)
  }

  lemma {:induction false} SizeBelowPower(v: nat, n: nat)
    requires 1 <= n && v < Pow128(n)
    ensures VarintSize(v) <= n
  {
    if v >= 128 {
      if n > 1 { SizeBelowPower(v / 128, n - 1); }
    }
  }

  lemma {:induction false} SizeAtLeast(v: nat, n: nat)
    requires 1 <= n <= 10 && (n > 1 ==> v >= Pow128(n - 1))
    ensures VarintSize(v) >= n
  {
    if n > 1 {
      assert Pow128(n - 1) == 128 * Pow128(n - 2);
      SizeAtLeast(v / 128, n - 1);
    }
  }

  lemma Powers()
    ensures Pow128(4) == 0x1000_0000 && Pow128(5) == 0x8_0000_0000
    ensures Pow128(9) == 0x8000_0000_0000_0000 && Pow128(10) > POW64
  {
    assert Pow128(2) == 0x4000;
    assert Pow128(4) == 0x1000_0000;
    assert Pow128(6) == 0x400_0000_0000;
    assert Pow128(8) == 0x100_0000_0000_0000;
  }

  /** A 32-bit word takes at most five bytes and a 64-bit word at most ten. */
  lemma WordSizes(v: nat)
    ensures v < POW32 ==> VarintSize(v) <= 5
    ensures v < POW64 ==> VarintSize(v) <= 10
  {
    Powers();
    if v < POW32 { SizeBelowPower(v, 5); }
    if v < POW64 { SizeBelowPower(v, 10); }
  }

  lemma {:induction false} SizeMonotone(u: nat, v: nat)
    requires u <= v
    ensures VarintSize(u) <= VarintSize(v)
  {
    if u >= 128 { SizeMonotone(u / 128, v / 128); }
  }

  /** A written varint is read back, with whatever follows left over, exactly when it is not too long. */
  lemma {:induction false} ReadBackVarint(v: nat, t: seq<byte>, max: nat)
    ensures ReadVarint(Varint(v) + t, max) == if VarintSize(v) <= max then Got(v, t) else Bad
  {
    if max > 0 {
      var b := Varint(v) + t;
      if v < 128 {
        assert b[0] == v && b[1..] == t;
      } else {
        ReadBackVarint(v / 128, t, max - 1);
        assert b[0] == v % 128 + 128 && b[1..] == Varint(v / 128) + t;
      }
    }
  }

  /** No byte string that reads as `v`, however padded, is shorter than the written form. */
  lemma {:induction false} VarintIsShortest(b: seq<byte>, max: nat)
    requires ReadVarint(b, max).Got?
    ensures VarintSize(ReadVarint(b, max).value) <= |b| - |ReadVarint(b, max).rest|
  {
    if b[0] >= 128 {
      VarintIsShortest(b[1..], max - 1);
      var v := ReadVarint(b[1..], max - 1).value;
      assert (b[0] - 128 + 128 * v) / 128 == v;
    }
  }

  lemma {:induction false} VarintAppend(b: seq<byte>, t: seq<byte>, max: nat)
    requires ReadVarint(b, max).Got?
    ensures ReadVarint(b + t, max) == Got(ReadVarint(b, max).value, ReadVarint(b, max).rest + t)
  {
    if b[0] < 128 {
      assert (b + t)[1..] == b[1..] + t;
    } else {
      VarintAppend(b[1..], t, max - 1);
      assert (b + t)[1..] == b[1..] + t;
    }
  }

  lemma {:induction false} VarintCut(v: nat, i: nat, max: nat)
    requires i < |Varint(v)|
    ensures ReadVarint(Varint(v)[..i], max) == Bad
  {
    if i > 0 && max > 0 {
      VarintCut(v / 128, i - 1, max - 1);
      assert Varint(v)[..i][1..] == Varint(v / 128)[..i - 1];
    }
  }

  // ----- Fixed-width numbers -----

  function LittleEndian(v: nat, n: nat): (s: seq<byte>)
    ensures |s| == n
  {
    if n == 0 then [] else [v % 256] + LittleEndian(v / 256, n - 1)
  }

  function Pow256(n: nat): nat {
    if n == 0 then 1 else 256 * Pow256(n - 1)
  }

  function FromLittleEndian(b: seq<byte>): (v: nat)
    ensures v < Pow256(|b|)
  {
    if b == [] then 0 else b[0] + 256 * FromLittleEndian(b[1..])
  }

  lemma {:induction false} LittleEndianReadBack(v: nat, n: nat)
    requires v < Pow256(n)
    ensures FromLittleEndian(LittleEndian(v, n)) == v
  {
    if n > 0 {
      LittleEndianReadBack(v / 256, n - 1);
      assert LittleEndian(v, n)[1..] == LittleEndian(v / 256, n - 1);
    }
  }

  lemma LittleEndianFrom(b: seq<byte>, i: nat)
    requires i <= |b|
    ensures FromLittleEndian(b[i..]) == if i == |b| then 0 else b[i] + 256 * FromLittleEndian(b[i + 1..])
  {
    if i < |b| { assert b[i..][1..] == b[i + 1..]; }
  }

  lemma FixedWidths()
    ensures Pow256(4) == POW32 && Pow256(8) == POW64
  {
    assert Pow256(2) == 0x1_0000;
    assert Pow256(4) == POW32;
    assert Pow256(6) == 0x1_0000_0000_0000;
  }

  function ReadFixed32(b: seq<byte>): (d: Decoded<uint32>)
    ensures d.Got? ==> |d.rest| < |b|
  {
    if |b| < 4 then Bad else FixedWidths(); Got(FromLittleEndian(b[..4]), b[4..])
  }

  function ReadFixed64(b: seq<byte>): (d: Decoded<uint64>)
    ensures d.Got? ==> |d.rest| < |b|
  {
    if |b| < 8 then Bad else FixedWidths(); Got(FromLittleEndian(b[..8]), b[8..])
  }

  // ----- Records -----

  /** A payload, by wire type. Groups (wire types 3 and 4) are not part of this model. */
  datatype Payload =
    | Number(v: uint64)
    | Fixed64(q: uint64)
    | Bytes(data: seq<byte>)
    | Fixed32(w: uint32)
  {
    function WireType(): nat {
      match this
      case Number(_) => 0
      case Fixed64(_) => 1
      case Bytes(_) => 2
      case Fixed32(_) => 5
    }
  }

  datatype Record = Record(num: nat, payload: Payload) {
    function Tag(): nat {
      8 * num + payload.WireType()
    }

    /** The records a reader can produce: a legal field number and a readable length. */
    predicate Valid() {
      1 <= num < 0x2000_0000 && (payload.Bytes? ==> |payload.data| <= MAX_SIZE)
    }
  }

  /** The writer narrows a length to 32 bits before it writes it. */
  function EncodePayload(p: Payload): seq<byte> {
    match p
    case Number(v) => Varint(v)
    case Fixed64(q) => LittleEndian(q, 8)
    case Bytes(data) => Varint(|data| % POW32) + data
    case Fixed32(w) => LittleEndian(w, 4)
  }

  function EncodeRecord(r: Record): seq<byte> {
    Varint(r.Tag()) + EncodePayload(r.payload)
  }

  function EncodeRecords(rs: seq<Record>): seq<byte> {
    if rs == [] then [] else EncodeRecord(rs[0]) + EncodeRecords(rs[1..])
  }

  function ReadPayload(wireType: nat, b: seq<byte>): (d: Decoded<Payload>)
    ensures d.Got? ==> |d.rest| < |b| && d.value.WireType() == wireType
    ensures d.Got? && d.value.Bytes? ==> |d.value.data| <= MAX_SIZE
  {
    match wireType
    case 0 => (match ReadVarint64(b) case Bad => Bad case Got(v, rest) => Got(Number(v), rest))
    case 1 => (match ReadFixed64(b) case Bad => Bad case Got(q, rest) => Got(Fixed64(q), rest))
    case 2 => (match ReadSize(b)
               case Bad => Bad
               case Got(n, rest) => if n <= |rest| then Got(Bytes(rest[..n]), rest[n..]) else Bad)
    case 5 => (match ReadFixed32(b) case Bad => Bad case Got(w, rest) => Got(Fixed32(w), rest))
    case _ => Bad
  }

  /** A tag that ends the enclosing message: zero, or an end-group tag. */
  predicate IsStopTag(tag: nat) {
    tag == 0 || tag % 8 == 4
  }

  function ReadRecord(b: seq<byte>): (d: Decoded<Record>)
    ensures d.Got? ==> |d.rest| < |b| && d.value.Valid()
  {
    match ReadTag(b)
    case Bad => Bad
    case Got(tag, rest) =>
      if IsStopTag(tag) || tag / 8 == 0 then Bad
      else match ReadPayload(tag % 8, rest)
        case Bad => Bad
        case Got(p, rest') => Got(Record(tag / 8, p), rest')
  }

  /** The records of a byte string that is nothing but whole records. */
  function Records(b: seq<byte>): Option<seq<Record>>
    decreases |b|
  {
    if b == [] then Some([])
    else match ReadRecord(b)
      case Bad => None
      case Got(r, rest) =>
        match Records(rest)
        case None => None
        case Some(rs) => Some([r] + rs)
  }

  predicate AllValid(rs: seq<Record>) {
    forall r | r in rs :: r.Valid()
  }

  lemma PayloadReadBack(p: Payload, t: seq<byte>)
    requires p.Bytes? ==> |p.data| <= MAX_SIZE
    ensures ReadPayload(p.WireType(), EncodePayload(p) + t) == Got(p, t)
  {
    hide Varint, LittleEndian, FromLittleEndian, Pow256, VarintSize;
    match p
    case Number(v) =>
      WordSizes(v);
      ReadBackVarint(v, t, 10);
    case Fixed64(q) =>
      FixedWidths();
      LittleEndianReadBack(q, 8);
      assert (LittleEndian(q, 8) + t)[..8] == LittleEndian(q, 8);
    case Fixed32(w) =>
      FixedWidths();
      LittleEndianReadBack(w, 4);
      assert (LittleEndian(w, 4) + t)[..4] == LittleEndian(w, 4);
    case Bytes(data) =>
      WordSizes(|data|);
      assert EncodePayload(p) + t == Varint(|data|) + (data + t);
      ReadBackVarint(|data|, data + t, 5);
      assert (data + t)[..|data|] == data;
  }

  lemma TagReadBack(r: Record, t: seq<byte>)
    requires 1 <= r.num < 0x2000_0000
    ensures ReadTag(Varint(r.Tag()) + t) == Got(r.Tag(), t)
    ensures r.Tag() / 8 == r.num && r.Tag() % 8 == r.payload.WireType() && !IsStopTag(r.Tag())
  {
    WordSizes(r.Tag());
    ReadBackVarint(r.Tag(), t, 5);
  }

  lemma RecordReadBack(r: Record, t: seq<byte>)
    requires r.Valid()
    ensures ReadRecord(EncodeRecord(r) + t) == Got(r, t)
  {
    assert EncodeRecord(r) + t == Varint(r.Tag()) + (EncodePayload(r.payload) + t);
    TagReadBack(r, EncodePayload(r.payload) + t);
    PayloadReadBack(r.payload, t);
  }

  lemma {:induction false} RecordsReadBack(rs: seq<Record>)
    requires AllValid(rs)
    ensures Records(EncodeRecords(rs)) == Some(rs)
  {
    if rs != [] {
      RecordReadBack(rs[0], EncodeRecords(rs[1..]));
      RecordsReadBack(rs[1..]);
      assert [rs[0]] + rs[1..] == rs;
    }
  }

  lemma Associative<T>(a: seq<T>, b: seq<T>, c: seq<T>)
    ensures (a + b) + c == a + (b + c)
  {}

  lemma EncodeCons(r: Record, rs: seq<Record>)
    ensures EncodeRecords([r] + rs) == EncodeRecord(r) + EncodeRecords(rs)
  {
    assert ([r] + rs)[1..] == rs;
  }

  lemma {:induction false} EncodeConcat(a: seq<Record>, c: seq<Record>)
    ensures EncodeRecords(a + c) == EncodeRecords(a) + EncodeRecords(c)
  {
    if a == [] {
      assert a + c == c;
    } else {
      assert a + c == [a[0]] + (a[1..] + c);
      EncodeCons(a[0], a[1..] + c);
      EncodeConcat(a[1..], c);
      Associative(EncodeRecord(a[0]), EncodeRecords(a[1..]), EncodeRecords(c));
    }
  }

  // ----- Sizes, computed without writing -----

  function PayloadSize(p: Payload): nat {
    match p
    case Number(v) => VarintSize(v)
    case Fixed64(_) => 8
    case Bytes(data) => VarintSize(|data| % POW32) + |data|
    case Fixed32(_) => 4
  }

  function RecordSize(r: Record): nat {
    VarintSize(r.Tag()) + PayloadSize(r.payload)
  }

  function RecordsSize(rs: seq<Record>): nat {
    if rs == [] then 0 else RecordSize(rs[0]) + RecordsSize(rs[1..])
  }

  lemma RecordLength(r: Record)
    ensures |EncodeRecord(r)| == RecordSize(r)
  {
    VarintLength(r.Tag());
    match r.payload
    case Number(v) => VarintLength(v);
    case Bytes(data) => VarintLength(|data| % POW32);
    case _ =>
  }

  lemma {:induction false} RecordsLength(rs: seq<Record>)
    ensures |EncodeRecords(rs)| == RecordsSize(rs)
  {
    if rs != [] {
      RecordLength(rs[0]);
      RecordsLength(rs[1..]);
    }
  }

  lemma {:induction false} SizeConcat(a: seq<Record>, c: seq<Record>)
    ensures RecordsSize(a + c) == RecordsSize(a) + RecordsSize(c)
  {
    if a == [] {
      assert a + c == c;
    } else {
      assert (a + c)[1..] == a[1..] + c;
      SizeConcat(a[1..], c);
    }
  }

  lemma SizeNone()
    ensures RecordsSize([]) == 0
  {}

  lemma SizeOne(r: Record)
    ensures RecordsSize([r]) == RecordSize(r)
  {
    assert [r][1..] == [];
  }

  /** What is read from a window does not change when more bytes follow the window. */
  lemma PayloadAppend(wireType: nat, b: seq<byte>, t: seq<byte>)
    requires ReadPayload(wireType, b).Got?
    ensures ReadPayload(wireType, b + t)
         == Got(ReadPayload(wireType, b).value, ReadPayload(wireType, b).rest + t)
  {
    match wireType
    case 0 => VarintAppend(b, t, 10);
    case 1 => assert (b + t)[..8] == b[..8] && (b + t)[8..] == b[8..] + t;
    case 2 =>
      VarintAppend(b, t, 5);
      var n, rest := ReadSize(b).value, ReadSize(b).rest;
      assert (rest + t)[..n] == rest[..n] && (rest + t)[n..] == rest[n..] + t;
    case 5 => assert (b + t)[..4] == b[..4] && (b + t)[4..] == b[4..] + t;
    case _ =>
  }

  lemma RecordAppend(b: seq<byte>, t: seq<byte>)
    requires ReadRecord(b).Got?
    ensures ReadRecord(b + t) == Got(ReadRecord(b).value, ReadRecord(b).rest + t)
  {
    VarintAppend(b, t, 5);
    var tag := ReadTag(b);
    PayloadAppend(tag.value % 8, tag.rest, t);
  }

  lemma {:induction false} RecordsAreValid(b: seq<byte>)
    requires Records(b).Some?
    ensures AllValid(Records(b).value)
    decreases |b|
  {
    if b != [] { RecordsAreValid(ReadRecord(b).rest); }
  }

  lemma PayloadIsShortest(wireType: nat, b: seq<byte>)
    requires ReadPayload(wireType, b).Got?
    ensures |EncodePayload(ReadPayload(wireType, b).value)| <= |b| - |ReadPayload(wireType, b).rest|
  {
    hide VarintSize, Varint;
    match wireType
    case 0 =>
      VarintIsShortest(b, 10);
      var v := ReadVarint(b, 10).value;
      SizeMonotone(v % POW64, v);
      VarintLength(v % POW64);
    case 2 =>
      VarintIsShortest(b, 5);
      VarintLength(ReadSize(b).value);
    case _ =>
  }

  /** Rewriting a record that was read never takes more bytes than it was read from. */
  lemma RecordIsShortest(b: seq<byte>)
    requires ReadRecord(b).Got?
    ensures |EncodeRecord(ReadRecord(b).value)| <= |b| - |ReadRecord(b).rest|
  {
    VarintIsShortest(b, 5);
    var v := ReadVarint(b, 5).value;
    SizeMonotone(v % POW32, v);
    VarintLength(v % POW32);
    PayloadIsShortest(v % POW32 % 8, ReadTag(b).rest);
    assert ReadRecord(b).value.Tag() == v % POW32;
  }

  lemma {:induction false} RecordsAreShortest(b: seq<byte>)
    requires Records(b).Some?
    ensures |EncodeRecords(Records(b).value)| <= |b|
    decreases |b|
  {
    if b != [] {
      RecordIsShortest(b);
      RecordsAreShortest(ReadRecord(b).rest);
      var rs := Records(ReadRecord(b).rest).value;
      assert ([ReadRecord(b).value] + rs)[1..] == rs;
    }
  }

  lemma PayloadCut(p: Payload, i: nat)
    requires p.Bytes? ==> |p.data| <= MAX_SIZE
    requires i < |EncodePayload(p)|
    ensures ReadPayload(p.WireType(), EncodePayload(p)[..i]) == Bad
  {
    match p
    case Number(v) => VarintCut(v, i, 10);
    case Fixed64(_) =>
    case Fixed32(_) =>
    case Bytes(data) =>
      var prefix := Varint(|data|);
      if i < |prefix| {
        assert EncodePayload(p)[..i] == prefix[..i];
        VarintCut(|data|, i, 5);
      } else {
        assert EncodePayload(p)[..i] == prefix + data[..i - |prefix|];
        WordSizes(|data|);
        ReadBackVarint(|data|, data[..i - |prefix|], 5);
      }
  }

  /** A record cut short, but not to nothing, cannot be read. */
  lemma RecordCut(r: Record, i: nat)
    requires r.Valid() && 0 < i < |EncodeRecord(r)|
    ensures ReadRecord(EncodeRecord(r)[..i]) == Bad
  {
    var tag := Varint(r.Tag());
    if i < |tag| {
      assert EncodeRecord(r)[..i] == tag[..i];
      VarintCut(r.Tag(), i, 5);
    } else {
      assert EncodeRecord(r)[..i] == tag + EncodePayload(r.payload)[..i - |tag|];
      TagReadBack(r, EncodePayload(r.payload)[..i - |tag|]);
      PayloadCut(r.payload, i - |tag|);
    }
  }

  /** A prefix of written records consists of whole records exactly when it ends where a record ends. */
  lemma {:induction false} RecordsCut(rs: seq<Record>, i: nat)
    requires AllValid(rs) && i <= |EncodeRecords(rs)|
    ensures Records(EncodeRecords(rs)[..i]).Some?
       <==> exists k | 0 <= k <= |rs| :: EncodeRecords(rs[..k]) == EncodeRecords(rs)[..i]
  {
    hide EncodeRecord, ReadRecord;
    var p := EncodeRecords(rs)[..i];
    if i == 0 {
      assert EncodeRecords(rs[..0]) == p;
    } else if i < |EncodeRecord(rs[0])| {
      assert p == EncodeRecord(rs[0])[..i];
      RecordCut(rs[0], i);
      forall k | 0 <= k <= |rs|
        ensures EncodeRecords(rs[..k]) != p
      {
        if k > 0 { assert rs[..k][0] == rs[0]; }
      }
    } else {
      var first, j := EncodeRecord(rs[0]), i - |EncodeRecord(rs[0])|;
      var p' := EncodeRecords(rs[1..])[..j];
      assert p == first + p';
      RecordReadBack(rs[0], p');
      RecordsCut(rs[1..], j);
      forall k | 0 <= k < |rs|
        ensures EncodeRecords(rs[..k + 1]) == first + EncodeRecords(rs[1..][..k])
      {
        assert rs[..k + 1][1..] == rs[1..][..k];
      }
      if exists k | 0 <= k <= |rs[1..]| :: EncodeRecords(rs[1..][..k]) == p' {
        var k :| 0 <= k <= |rs[1..]| && EncodeRecords(rs[1..][..k]) == p';
        assert EncodeRecords(rs[..k + 1]) == p;
      }
      if exists k | 0 <= k <= |rs| :: EncodeRecords(rs[..k]) == p {
        var k :| 0 <= k <= |rs| && EncodeRecords(rs[..k]) == p;
        assert k > 0;
        assert EncodeRecords(rs[..k - 1 + 1]) == first + EncodeRecords(rs[1..][..k - 1]);
        assert EncodeRecords(rs[1..][..k - 1]) == (first + EncodeRecords(rs[1..][..k - 1]))[|first|..];
        assert p' == p[|first|..];
      }
    }
  }
}
