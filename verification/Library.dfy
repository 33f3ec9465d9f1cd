/**
 The parts of the protobuf runtime that the message classes call: the parse context with its
 window limit, the readers that advance a position in the input, and the writers that append to
 the output. Each is a loop or a straight-line method proved against the functions of Wire.
 A reader looks no further than the window's limit; the runtime may read past it and reports the
 failure afterwards.
 */
module Library {
  import opened Wire
  import opened Codec

  lemma Split<T>(s: seq<T>, i: nat, j: nat, k: nat)
    requires i <= j <= k <= |s|
    ensures s[i..k][..j - i] == s[i..j] && s[i..k][j - i..] == s[j..k]
  {}

  // ----- Input -----

  class ParseContext {
    const buffer: seq<byte>
    var limit: nat
    var lastTagMinus1: uint32

    constructor (input: seq<byte>)
      ensures buffer == input && limit == |input| && lastTagMinus1 == 0
    {
      buffer := input;
      limit := |input|;
      lastTagMinus1 := 0;
    }

    /** Positions from `ptr` up to the limit may be read. */
    predicate Open(ptr: nat)
      reads `limit
    {
      ptr <= limit <= |buffer|
    }

    function Window(ptr: nat): seq<byte>
      requires Open(ptr)
      reads `limit
    {
      buffer[ptr..limit]
    }

    predicate EndedAtLimit()
      reads `lastTagMinus1
    {
      lastTagMinus1 == 0
    }

    /** Remembers the tag that stopped a parse, less one in 32 bits: only tag 1 would look like the limit. */
    method SetLastTag(tag: uint32)
      modifies `lastTagMinus1
      ensures lastTagMinus1 == if tag == 0 then POW32 - 1 else tag - 1
      ensures EndedAtLimit() <==> tag == 1
    {
      lastTagMinus1 := if tag == 0 then POW32 - 1 else tag - 1;
    }

    /** Narrows the window to the next `size` bytes and returns what restores the old limit. */
    method PushLimit(ptr: nat, size: nat) returns (delta: nat)
      requires Open(ptr) && size <= limit - ptr
      modifies `limit
      ensures limit == ptr + size && limit + delta == old(limit)
    {
      delta := limit - (ptr + size);
      limit := ptr + size;
    }

    method PopLimit(delta: nat) returns (ok: bool)
      modifies `limit
      ensures limit == old(limit) + delta && ok == EndedAtLimit()
    {
      limit := limit + delta;
      ok := lastTagMinus1 == 0;
    }
  }

  /** How a parse method's results show the outcome of the parse it stands for. */
  ghost predicate Shows(o: Outcome, ok: bool, ptr: nat, ctx: ParseContext, contents: Message)
    reads ctx
  {
    match o
    case Done(m) => ok && contents == m && ptr == ctx.limit && ctx.EndedAtLimit()
    case Stopped(m, tag, rest) =>
      ok && contents == m && ctx.Open(ptr) && ctx.Window(ptr) == rest && !ctx.EndedAtLimit()
      && ctx.lastTagMinus1 == if tag == 0 then POW32 - 1 else tag - 1
    case Failed => !ok
  }

  /** `next` is where the rest of the window starts. */
  ghost predicate At<T>(d: Decoded<T>, ctx: ParseContext, ptr: nat, ok: bool, next: nat, value: T)
    reads ctx
    requires ctx.Open(ptr)
  {
    match d
    case Bad => !ok
    case Got(v, rest) => ok && value == v && ptr < next <= ctx.limit && rest == ctx.Window(next)
  }

  /** A varint whose first bytes hold `low`, worth `weight` times what is still to be read. */
  ghost function Resume(low: nat, weight: nat, d: Decoded<nat>): Decoded<nat> {
    match d
    case Bad => Bad
    case Got(v, rest) => Got(low + weight * v, rest)
  }

  /** Seven bits moved up to their place. */
  function Shifted(bits: nat, weight: nat): nat {
    bits * weight
  }

  lemma ResumeLast(low: nat, weight: nat, b: seq<byte>, max: nat)
    requires b != [] && max > 0 && b[0] < 128
    ensures Resume(low, weight, ReadVarint(b, max)) == Got(low + Shifted(b[0], weight), b[1..])
  {}

  lemma ResumeStart(b: seq<byte>, max: nat)
    ensures Resume(0, 1, ReadVarint(b, max)) == ReadVarint(b, max)
  {}

  lemma ResumeNever(low: nat, weight: nat, b: seq<byte>, max: nat)
    requires b == [] || max == 0
    ensures Resume(low, weight, ReadVarint(b, max)) == Bad
  {}

  lemma ResumeNext(low: nat, weight: nat, b: seq<byte>, max: nat, low': nat)
    requires b != [] && max > 0 && b[0] >= 128 && low' == low + Shifted(b[0] - 128, weight)
    ensures Resume(low, weight, ReadVarint(b, max)) == Resume(low', Shifted(128, weight), ReadVarint(b[1..], max - 1))
  {
    if ReadVarint(b[1..], max - 1).Got? {
      var v := ReadVarint(b[1..], max - 1).value;
      assert weight * (b[0] - 128 + 128 * v) == weight * (b[0] - 128) + 128 * weight * v;
    }
  }

  /** Reads seven bits at a time from at most `max` bytes. */
  method ReadVarintLoop(ctx: ParseContext, ptr: nat, max: nat) returns (ok: bool, next: nat, value: nat)
    requires ctx.Open(ptr)
    ensures At(ReadVarint(ctx.Window(ptr), max), ctx, ptr, ok, next, value)
  {
    hide Shifted, Resume, ReadVarint;
    ghost var goal := ReadVarint(ctx.Window(ptr), max);
    ResumeStart(ctx.Window(ptr), max);
    value, next := 0, ptr;
    var weight: nat, left: nat := 1, max;
    while left > 0 && next < ctx.limit
      invariant next == ptr + (max - left) && left <= max && ctx.Open(next)
      invariant Resume(value, weight, ReadVarint(ctx.Window(next), left)) == goal
    {
      ghost var window := ctx.Window(next);
      assert window[1..] == ctx.Window(next + 1);
      var b: int := ctx.buffer[next];
      if b < 128 {
        ResumeLast(value, weight, window, left);
        return true, next + 1, value + Shifted(b, weight);
      }
      var low: nat := value + Shifted(b - 128, weight);
      ResumeNext(value, weight, window, left, low);
      value, weight, next, left := low, Shifted(128, weight), next + 1, left - 1;
    }
    ResumeNever(value, weight, ctx.Window(next), left);
    ok := false;
  }

  method ReadTag(ctx: ParseContext, ptr: nat) returns (ok: bool, next: nat, tag: uint32)
    requires ctx.Open(ptr)
    ensures At(Wire.ReadTag(ctx.Window(ptr)), ctx, ptr, ok, next, tag)
  {
    var v;
    ok, next, v := ReadVarintLoop(ctx, ptr, 5);
    tag := v % POW32;
  }

  method ReadVarint64(ctx: ParseContext, ptr: nat) returns (ok: bool, next: nat, value: uint64)
    requires ctx.Open(ptr)
    ensures At(Wire.ReadVarint64(ctx.Window(ptr)), ctx, ptr, ok, next, value)
  {
    var v;
    ok, next, v := ReadVarintLoop(ctx, ptr, 10);
    value := v % POW64;
  }

  method ReadSize(ctx: ParseContext, ptr: nat) returns (ok: bool, next: nat, size: nat)
    requires ctx.Open(ptr)
    ensures At(Wire.ReadSize(ctx.Window(ptr)), ctx, ptr, ok, next, size)
  {
    ok, next, size := ReadVarintLoop(ctx, ptr, 5);
    if ok && size > MAX_SIZE { ok := false; }
  }

  /** A length prefix and that many bytes. */
  method ReadString(ctx: ParseContext, ptr: nat) returns (ok: bool, next: nat, s: seq<byte>)
    requires ctx.Open(ptr)
    ensures At(ReadPayload(2, ctx.Window(ptr)), ctx, ptr, ok, next, Bytes(s))
  {
    var size;
    ok, next, size := ReadSize(ctx, ptr);
    s := [];
    if ok {
      if size > ctx.limit - next {
        ok := false;
      } else {
        s := ctx.buffer[next..next + size];
        Split(ctx.buffer, next, next + size, ctx.limit);
        next := next + size;
      }
    }
  }

  method ReadFixed(ctx: ParseContext, ptr: nat, width: nat) returns (ok: bool, next: nat, value: nat)
    requires ctx.Open(ptr) && width > 0
    ensures At(if width <= |ctx.Window(ptr)|
               then Got(FromLittleEndian(ctx.Window(ptr)[..width]), ctx.Window(ptr)[width..]) else Bad,
               ctx, ptr, ok, next, value)
  {
    if width > ctx.limit - ptr { return false, ptr, 0; }
    ghost var b := ctx.Window(ptr)[..width];
    next, value := ptr + width, 0;
    var i := width;
    LittleEndianFrom(b, width);
    while i > 0
      invariant 0 <= i <= width && value == FromLittleEndian(b[i..])
    {
      hide FromLittleEndian;
      i := i - 1;
      LittleEndianFrom(b, i);
      assert b[i] == ctx.buffer[ptr + i];
      value := ctx.buffer[ptr + i] + 256 * value;
    }
    assert b[0..] == b && ctx.Window(ptr)[width..] == ctx.Window(next);
    ok := true;
  }

  /** Reads the payload of a field the class does not expect, to be kept as an unknown record. */
  method UnknownFieldParse(ctx: ParseContext, tag: uint32, ptr: nat) returns (ok: bool, next: nat, r: Record)
    requires ctx.Open(ptr) && !IsStopTag(tag)
    ensures !ok ==> tag / 8 == 0 || ReadPayload(tag % 8, ctx.Window(ptr)).Bad?
    ensures ok ==> tag / 8 != 0 && r.num == tag / 8
    ensures ok ==> At(ReadPayload(tag % 8, ctx.Window(ptr)), ctx, ptr, ok, next, r.payload)
  {
    r, next := Record(tag / 8, Number(0)), ptr;
    if tag / 8 == 0 { return false, next, r; }
    match tag % 8
    case 0 =>
      var v;
      ok, next, v := ReadVarint64(ctx, ptr);
      r := Record(tag / 8, Number(v));
    case 1 =>
      var q;
      ok, next, q := ReadFixed(ctx, ptr, 8);
      FixedWidths();
      if ok { r := Record(tag / 8, Fixed64(q)); }
    case 2 =>
      var s;
      ok, next, s := ReadString(ctx, ptr);
      r := Record(tag / 8, Bytes(s));
    case 5 =>
      var w;
      ok, next, w := ReadFixed(ctx, ptr, 4);
      FixedWidths();
      if ok { r := Record(tag / 8, Fixed32(w)); }
    case _ =>
      ok := false;
  }

  // ----- Output -----

  /** Seven bits at a time, low bits first, with a continuation bit on all but the last byte. */
  method WriteVarint(v: nat, target: seq<byte>) returns (out: seq<byte>)
    ensures out == target + Varint(v)
  {
    out := target;
    var left := v;
    while left >= 128
      invariant out + Varint(left) == target + Varint(v)
    {
      Associative(out, [left % 128 + 128], Varint(left / 128));
      out := out + [left % 128 + 128];
      left := left / 128;
    }
    out := out + [left];
  }

  method WriteTag(num: nat, wireType: nat, target: seq<byte>) returns (out: seq<byte>)
    ensures out == target + Varint(8 * num + wireType)
  {
    out := WriteVarint(8 * num + wireType, target);
  }

  method WriteNumber(num: nat, v: uint64, target: seq<byte>) returns (out: seq<byte>)
    ensures out == target + EncodeRecord(Record(num, Number(v)))
  {
    out := WriteTag(num, 0, target);
    out := WriteVarint(v, out);
  }

  method WriteInt32ToArray(num: nat, i: int32, target: seq<byte>) returns (out: seq<byte>)
    ensures out == target + EncodeRecord(Record(num, Number(Extend64(i))))
  {
    out := WriteNumber(num, Extend64(i), target);
  }

  method WriteInt64ToArray(num: nat, i: int64, target: seq<byte>) returns (out: seq<byte>)
    ensures out == target + EncodeRecord(Record(num, Number(Extend64(i))))
  {
    out := WriteNumber(num, Extend64(i), target);
  }

  method WriteBoolToArray(num: nat, b: bool, target: seq<byte>) returns (out: seq<byte>)
    ensures out == target + EncodeRecord(Record(num, Number(if b then 1 else 0)))
  {
    out := WriteNumber(num, if b then 1 else 0, target);
  }

  method WriteString(num: nat, s: seq<byte>, target: seq<byte>) returns (out: seq<byte>)
    ensures out == target + EncodeRecord(Record(num, Bytes(s)))
  {
    out := WriteTag(num, 2, target);
    out := WriteVarint(|s| % POW32, out);
    out := out + s;
  }

  method WriteFixed(v: nat, width: nat, target: seq<byte>) returns (out: seq<byte>)
    ensures out == target + LittleEndian(v, width)
  {
    out := target;
    var left, i := v, 0;
    while i < width
      invariant i <= width
      invariant out + LittleEndian(left, width - i) == target + LittleEndian(v, width)
    {
      Associative(out, [left % 256], LittleEndian(left / 256, width - i - 1));
      out := out + [left % 256];
      left, i := left / 256, i + 1;
    }
  }

  method WriteRecord(r: Record, target: seq<byte>) returns (out: seq<byte>)
    ensures out == target + EncodeRecord(r)
  {
    hide Varint, LittleEndian;
    match r.payload
    case Number(v) => out := WriteNumber(r.num, v, target);
    case Bytes(data) => out := WriteString(r.num, data, target);
    case Fixed64(q) =>
      out := WriteTag(r.num, 1, target);
      out := WriteFixed(q, 8, out);
    case Fixed32(w) =>
      out := WriteTag(r.num, 5, target);
      out := WriteFixed(w, 4, out);
  }

  method InternalSerializeUnknownFieldsToArray(unknown: seq<Record>, target: seq<byte>) returns (out: seq<byte>)
    ensures out == target + EncodeRecords(unknown)
  {
    out := target;
    var i := 0;
    while i < |unknown|
      invariant i <= |unknown|
      invariant out + EncodeRecords(unknown[i..]) == target + EncodeRecords(unknown)
    {
      assert unknown[i..] == [unknown[i]] + unknown[i + 1..];
      EncodeCons(unknown[i], unknown[i + 1..]);
      Associative(out, EncodeRecord(unknown[i]), EncodeRecords(unknown[i + 1..]));
      out := WriteRecord(unknown[i], out);
      i := i + 1;
    }
  }

  // ----- Sizes -----

  /** A negative int32 takes ten bytes, any other as many as its varint. */
  function Int32Size(i: int32): (n: nat)
    ensures n == VarintSize(Extend64(i))
  {
    if i < 0 then NegativeTakesTen(i); 10 else VarintSize(i)
  }

  function Int64Size(i: int64): nat {
    VarintSize(Extend64(i))
  }

  lemma NegativeTakesTen(i: int32)
    requires i < 0
    ensures VarintSize(Extend64(i)) == 10
  {
    Powers();
    WordSizes(Extend64(i));
    SizeAtLeast(Extend64(i), 10);
  }

  /**
   Every number kind comes back from its varint, whatever follows it: an int32 through 64 bits, an
   int64 as it is, a bool as one. The size function gives the varint's length, 1 to 10.
   */
  lemma NumbersReadBack(i: int32, j: int64, b: bool, t: seq<byte>)
    ensures Wire.ReadVarint64(Varint(Extend64(i)) + t) == Got(Extend64(i), t) && ToInt32(Extend64(i)) == i
    ensures Wire.ReadVarint64(Varint(Extend64(j)) + t) == Got(Extend64(j), t) && ToInt64(Extend64(j)) == j
    ensures var v := if b then 1 else 0;
      Wire.ReadVarint64(Varint(v) + t) == Got(v, t) && (v != 0) == b && |Varint(v)| == 1
    ensures |Varint(Extend64(i))| == Int32Size(i) && 1 <= Int32Size(i) <= 10 && (Int32Size(i) <= 5 <==> i >= 0)
    ensures |Varint(Extend64(j))| == Int64Size(j) && 1 <= Int64Size(j) <= 10
  {
    hide Varint, VarintSize, ReadVarint;
    NarrowingUndoesWidening(i, j);
    NumberReadBack(Extend64(i), t);
    NumberReadBack(Extend64(j), t);
    NumberReadBack(if b then 1 else 0, t);
    OneByte(if b then 1 else 0);
    WordSizes(Extend64(i));
    WordSizes(Extend64(j));
    if i < 0 { NegativeTakesTen(i); }
  }

  lemma {:induction false} NumberReadBack(v: uint64, t: seq<byte>)
    ensures Wire.ReadVarint64(Varint(v) + t) == Got(v, t) && |Varint(v)| == VarintSize(v)
  {
    hide Varint, VarintSize, ReadVarint;
    WordSizes(v);
    ReadBackVarint(v, t, 10);
    VarintLength(v);
  }

  lemma OneByte(v: nat)
    requires v < 128
    ensures VarintSize(v) == 1
  {}

  method ComputeUnknownFieldsSize(unknown: seq<Record>, size: nat) returns (total: nat)
    ensures total == size + RecordsSize(unknown)
  {
    total := size;
    var i := 0;
    while i < |unknown|
      invariant i <= |unknown|
      invariant total + RecordsSize(unknown[i..]) == size + RecordsSize(unknown)
    {
      total := total + RecordSize(unknown[i]);
      assert unknown[i..][1..] == unknown[i + 1..];
      i := i + 1;
    }
  }

  /** The size plus its own length prefix, both as the runtime narrows them. */
  function LengthDelimitedSize(n: nat): nat {
    VarintSize(n % POW32) + n
  }
}
