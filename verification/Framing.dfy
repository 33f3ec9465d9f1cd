/**
 Child messages as the serializer frames them: the length prefix comes from the size cached in
 the child object, so the bytes are right only while the cache is.
 */
module Framing {
  import opened Wire
  import opened Codec

  /** The cache is an int: a size is narrowed to 32 bits. */
  function ToCachedSize(n: nat): int32 {
    ToInt32(n)
  }

  /** Children written one after the other, each prefixed with a remembered size. */
  function Framed(num: nat, child: Schema, items: seq<Message>, sizes: seq<int32>): seq<byte>
    requires |items| == |sizes|
  {
    if items == [] then []
    else Frame(num, child, items[0], sizes[0]) + Framed(num, child, items[1..], sizes[1..])
  }

  function Frame(num: nat, child: Schema, c: Message, size: int32): seq<byte> {
    Varint(8 * num + 2) + (Varint(Low32(size)) + Encode(child, c, false))
  }

  /** A message whose last field is repeated, as written with the sizes its children remember. */
  function Written(s: Schema, m: Message, child: Schema, items: seq<Message>, sizes: seq<int32>): seq<byte>
    requires |s.fields| == |m.vals| > 0 && |items| == |sizes|
  {
    var n := |s.fields|;
    EncodeRecords(FieldsTo(s, m, n - 1, false)) + Framed(n, child, items, sizes) + EncodeRecords(m.unknown)
  }

  /** The sizes that ByteSizeLong leaves in the children. */
  ghost predicate Fresh(child: Schema, items: seq<Message>, sizes: seq<int32>) {
    |items| == |sizes| && forall j | 0 <= j < |items| :: sizes[j] == ToCachedSize(|Encode(child, items[j], false)|)
  }

  lemma CachedPrefix(n: nat)
    ensures Low32(ToCachedSize(n)) == n % POW32
  {}

  lemma FrameExactly(num: nat, child: Schema, c: Message, size: int32, t: seq<byte>, u: seq<byte>)
    ensures var r := Record(num, Bytes(Encode(child, c, false)));
      Frame(num, child, c, size) + t == EncodeRecord(r) + u
      <==> size == ToCachedSize(|Encode(child, c, false)|) && t == u
  {
    hide Encode, ToInt32, Low32;
    var e := Encode(child, c, false);
    var tag, p, q := Varint(8 * num + 2), Varint(Low32(size)), Varint(|e| % POW32);
    CachedPrefix(|e|);
    Low32Injective(size, ToCachedSize(|e|));
    assert Frame(num, child, c, size) + t == tag + (p + (e + t));
    assert EncodeRecord(Record(num, Bytes(e))) + u == tag + (q + (e + u));
    if Frame(num, child, c, size) + t == EncodeRecord(Record(num, Bytes(e))) + u {
      assert (tag + (p + (e + t)))[|tag|..] == p + (e + t);
      assert (tag + (q + (e + u)))[|tag|..] == q + (e + u);
      SamePrefix(Low32(size), |e| % POW32, e + t, e + u);
      assert (e + t)[|e|..] == t && (e + u)[|e|..] == u;
    }
  }

  /** Whatever size a child remembers is what a reader takes its length to be. */
  lemma FrameSaysSize(num: nat, child: Schema, c: Message, size: int32, t: seq<byte>)
    requires 1 <= num < 0x2000_0000 && 0 <= size <= MAX_SIZE
    ensures var tag := ReadTag(Frame(num, child, c, size) + t);
      && tag.Got? && tag.value == 8 * num + 2
      && ReadSize(tag.rest) == Got(size, Encode(child, c, false) + t)
  {
    hide Encode, Varint, ReadVarint, VarintSize;
    var e := Encode(child, c, false);
    var rest := Varint(size) + (e + t);
    assert Frame(num, child, c, size) + t == Varint(8 * num + 2) + rest;
    WordSizes(8 * num + 2);
    WordSizes(size);
    ReadBackVarint(8 * num + 2, rest, 5);
    ReadBackVarint(size, e + t, 5);
  }

  lemma Low32Injective(i: int32, j: int32)
    ensures Low32(i) == Low32(j) <==> i == j
  {}

  /** Varints are prefix-free. */
  lemma SamePrefix(v: nat, w: nat, t: seq<byte>, u: seq<byte>)
    requires Varint(v) + t == Varint(w) + u
    ensures v == w && t == u
  {
    ReadBackVarint(v, t, VarintSize(v) + VarintSize(w));
    ReadBackVarint(w, u, VarintSize(v) + VarintSize(w));
  }

  lemma {:induction false} FramedExactly(num: nat, child: Schema, items: seq<Message>, sizes: seq<int32>, t: seq<byte>)
    requires |items| == |sizes|
    ensures Framed(num, child, items, sizes) + t == EncodeRecords(ChildRecords(num, child, items, false)) + t
       <==> Fresh(child, items, sizes)
    decreases |items|
  {
    if items != [] {
      hide Frame, EncodeRecord, ToCachedSize;
      var r := Record(num, Bytes(Encode(child, items[0], false)));
      var rest := ChildRecords(num, child, items[1..], false);
      FramedExactly(num, child, items[1..], sizes[1..], t);
      EncodeCons(r, rest);
      Associative(Frame(num, child, items[0], sizes[0]), Framed(num, child, items[1..], sizes[1..]), t);
      Associative(EncodeRecord(r), EncodeRecords(rest), t);
      FrameExactly(num, child, items[0], sizes[0],
                   Framed(num, child, items[1..], sizes[1..]) + t, EncodeRecords(rest) + t);
    }
  }

  /**
   The bytes written are the message's encoding exactly when every child remembers its exact size:
   this is what ByteSizeLong sets up and a later change to a child breaks.
   */
  lemma WrittenExactly(s: Schema, m: Message, child: Schema, items: seq<Message>, sizes: seq<int32>)
    requires |s.fields| == |m.vals| > 0 && |items| == |sizes|
    requires s.fields[|s.fields| - 1] == Repeated(child) && m.vals[|s.fields| - 1] == ListV(items)
    ensures Written(s, m, child, items, sizes) == Encode(s, m, false) <==> Fresh(child, items, sizes)
  {
    hide Framed, EncodeRecords;
    var n := |s.fields|;
    var before, here := FieldsTo(s, m, n - 1, false), ChildRecords(n, child, items, false);
    var a, f, t := EncodeRecords(before), Framed(n, child, items, sizes), EncodeRecords(m.unknown);
    assert FieldsTo(s, m, n, false) == before + here;
    EncodeConcat(before + here, m.unknown);
    EncodeConcat(before, here);
    assert Encode(s, m, false) == a + EncodeRecords(here) + t;
    assert Written(s, m, child, items, sizes) == a + f + t;
    hide FieldsTo, FieldRecords, ChildRecords, Fresh, Encode, Written, ToRecords;
    FramedExactly(n, child, items, sizes, t);
    assert (a + f + t)[|a|..] == f + t;
    assert (a + EncodeRecords(here) + t)[|a|..] == EncodeRecords(here) + t;
    Associative(a, f, t);
    Associative(a, EncodeRecords(here), t);
  }

  // ----- For the serialize loop -----

  lemma FramedStep(num: nat, child: Schema, items: seq<Message>, sizes: seq<int32>, i: nat, out: seq<byte>)
    requires |items| == |sizes| && i < |items|
    ensures out + Framed(num, child, items[i..], sizes[i..])
         == out + Varint(8 * num + 2) + Varint(Low32(sizes[i])) + Encode(child, items[i], false)
              + Framed(num, child, items[i + 1..], sizes[i + 1..])
  {
    hide Encode, Varint;
    assert items[i..][1..] == items[i + 1..] && sizes[i..][1..] == sizes[i + 1..];
  }

  lemma FramedEnd(num: nat, child: Schema, items: seq<Message>, sizes: seq<int32>, out: seq<byte>)
    requires |items| == |sizes| == 0
    ensures out + Framed(num, child, items, sizes) == out
  {}

  lemma {:induction false} WrittenInOrder(s: Schema, m: Message, child: Schema,
                                          items: seq<Message>, sizes: seq<int32>, target: seq<byte>)
    requires |s.fields| == |m.vals| > 0 && |items| == |sizes|
    ensures var n := |s.fields|;
      var framed := target + EncodeRecords(FieldsTo(s, m, n - 1, false)) + Framed(n, child, items, sizes);
      target + Written(s, m, child, items, sizes)
      == if m.unknown == [] then framed else framed + EncodeRecords(m.unknown)
  {
    var n := |s.fields|;
    var a, f := EncodeRecords(FieldsTo(s, m, n - 1, false)), Framed(n, child, items, sizes);
    var u := EncodeRecords(m.unknown);
    assert Written(s, m, child, items, sizes) == a + f + u;
    assert m.unknown == [] ==> u == [];
    hide *;
    Associative(target, a + f, u);
    Associative(target, a, f);
    if m.unknown == [] { assert target + a + f + u == target + a + f; }
  }
}
