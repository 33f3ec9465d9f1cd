/**
 One step of a serializer, of a size calculation or of a merge, and what it adds up to.
 */
module WriteSteps {
  import opened Wire
  import opened Codec
  import opened Bounds
  import opened Library

  // ----- Serializing -----

  predicate IsDefault(v: Value) {
    match v
    case IntV(i) => i == 0
    case BoolV(b) => !b
    case TextV(s) => s == []
    case ListV(items) => items == []
  }

  /** The payload of a number or text that is not the default. */
  function ScalarPayload(v: Value): Payload
    requires !v.ListV?
  {
    match v
    case IntV(i) => Number(Extend64(i))
    case BoolV(_) => Number(1)
    case TextV(s) => Bytes(s)
  }

  /** The serializer has reached the end of the field at index `n`. */
  lemma FieldWritten(s: Schema, m: Message, n: nat, target: seq<byte>)
    requires n < |s.fields| == |m.vals| && !m.vals[n].ListV?
    ensures var before := target + EncodeRecords(FieldsTo(s, m, n, false));
      target + EncodeRecords(FieldsTo(s, m, n + 1, false))
      == if IsDefault(m.vals[n]) then before
         else before + EncodeRecord(Record(n + 1, ScalarPayload(m.vals[n])))
  {
    var before, here := FieldsTo(s, m, n, false), FieldRecords(n + 1, s.fields[n], m.vals[n], false);
    assert FieldsTo(s, m, n + 1, false) == before + here;
    if IsDefault(m.vals[n]) {
      assert before + here == before;
    } else {
      var r := Record(n + 1, ScalarPayload(m.vals[n]));
      assert here == [r];
      hide *;
      EncodeConcat(before, here);
      EncodeOne(r);
      Associative(target, EncodeRecords(before), EncodeRecord(r));
    }
  }

  lemma EncodeOne(r: Record)
    ensures EncodeRecords([r]) == EncodeRecord(r)
  {
    hide EncodeRecord;
    assert [r][1..] == [];
    assert EncodeRecord(r) + [] == EncodeRecord(r);
  }

  /** A number or text field in the serializer: nothing for the default, one record otherwise. */
  method PutInt32(ghost s: Schema, ghost m: Message, ghost target: seq<byte>, num: nat, i: int32, written: seq<byte>)
    returns (out: seq<byte>)
    requires 1 <= num <= |s.fields| == |m.vals| && m.vals[num - 1] == IntV(i)
    requires written == target + EncodeRecords(FieldsTo(s, m, num - 1, false))
    ensures out == target + EncodeRecords(FieldsTo(s, m, num, false))
  {
    hide FieldsTo, EncodeRecords, EncodeRecord, Extend64;
    FieldWritten(s, m, num - 1, target);
    out := written;
    if i != 0 { out := WriteInt32ToArray(num, i, out); }
  }

  method PutInt64(ghost s: Schema, ghost m: Message, ghost target: seq<byte>, num: nat, i: int64, written: seq<byte>)
    returns (out: seq<byte>)
    requires 1 <= num <= |s.fields| == |m.vals| && m.vals[num - 1] == IntV(i)
    requires written == target + EncodeRecords(FieldsTo(s, m, num - 1, false))
    ensures out == target + EncodeRecords(FieldsTo(s, m, num, false))
  {
    hide FieldsTo, EncodeRecords, EncodeRecord, Extend64;
    FieldWritten(s, m, num - 1, target);
    out := written;
    if i != 0 { out := WriteInt64ToArray(num, i, out); }
  }

  method PutBool(ghost s: Schema, ghost m: Message, ghost target: seq<byte>, num: nat, b: bool, written: seq<byte>)
    returns (out: seq<byte>)
    requires 1 <= num <= |s.fields| == |m.vals| && m.vals[num - 1] == BoolV(b)
    requires written == target + EncodeRecords(FieldsTo(s, m, num - 1, false))
    ensures out == target + EncodeRecords(FieldsTo(s, m, num, false))
  {
    hide FieldsTo, EncodeRecords, EncodeRecord;
    FieldWritten(s, m, num - 1, target);
    out := written;
    if b { out := WriteBoolToArray(num, b, out); }
  }

  method PutText(ghost s: Schema, ghost m: Message, ghost target: seq<byte>, num: nat, text: seq<byte>,
                 written: seq<byte>)
    returns (out: seq<byte>)
    requires 1 <= num <= |s.fields| == |m.vals| && m.vals[num - 1] == TextV(text)
    requires written == target + EncodeRecords(FieldsTo(s, m, num - 1, false))
    ensures out == target + EncodeRecords(FieldsTo(s, m, num, false))
  {
    hide FieldsTo, EncodeRecords, EncodeRecord;
    FieldWritten(s, m, num - 1, target);
    out := written;
    if |text| > 0 { out := WriteString(num, text, out); }
  }

  lemma NothingWritten(s: Schema, m: Message, target: seq<byte>)
    ensures target + EncodeRecords(FieldsTo(s, m, 0, false)) == target
  {
    assert EncodeRecords([]) == [];
  }

  lemma AllFieldsWritten(s: Schema, m: Message, target: seq<byte>)
    ensures target + Encode(s, m, false)
         == if m.unknown == [] then target + EncodeRecords(FieldsTo(s, m, |s.fields|, false))
            else target + EncodeRecords(FieldsTo(s, m, |s.fields|, false)) + EncodeRecords(m.unknown)
  {
    var fields := FieldsTo(s, m, |s.fields|, false);
    assert Encode(s, m, false) == EncodeRecords(fields + m.unknown);
    hide *;
    EncodeConcat(fields, m.unknown);
    if m.unknown == [] {
      assert fields + m.unknown == fields;
    } else {
      Associative(target, EncodeRecords(fields), EncodeRecords(m.unknown));
    }
  }

  // ----- Sizes -----

  function ScalarSize(v: Value): nat {
    if IsDefault(v) then 0
    else match v
      case IntV(i) => 1 + VarintSize(Extend64(i))
      case BoolV(_) => 1 + 1
      case TextV(s) => 1 + LengthDelimitedSize(|s|)
      case ListV(_) => 0
  }

  /** What a field adds to the size: nothing for the default, otherwise a one-byte tag and its payload. */
  function CountInt32(i: int32): (n: nat)
    ensures n == ScalarSize(IntV(i))
  {
    if i != 0 then 1 + Int32Size(i) else 0
  }

  function CountInt64(i: int64): (n: nat)
    ensures n == ScalarSize(IntV(i))
  {
    if i != 0 then 1 + Int64Size(i) else 0
  }

  function CountBool(b: bool): (n: nat)
    ensures n == ScalarSize(BoolV(b))
  {
    if b then 1 + 1 else 0
  }

  function CountText(text: seq<byte>): (n: nat)
    ensures n == ScalarSize(TextV(text))
  {
    if |text| > 0 then 1 + LengthDelimitedSize(|text|) else 0
  }

  /** Field numbers below 16 have one-byte tags. */
  lemma FieldCounted(s: Schema, m: Message, n: nat)
    requires n < |s.fields| == |m.vals| && n < 15 && !m.vals[n].ListV?
    ensures FieldsSize(s, m, n + 1, false) == FieldsSize(s, m, n, false) + ScalarSize(m.vals[n])
  {
    if !IsDefault(m.vals[n]) {
      var r := Record(n + 1, ScalarPayload(m.vals[n]));
      assert FieldRecords(n + 1, s.fields[n], m.vals[n], false) == [r];
      SizeOne(r);
      assert VarintSize(r.Tag()) == 1;
      assert VarintSize(1) == 1;
    }
  }

  lemma SizeCounted(s: Schema, m: Message)
    requires |s.fields| == |m.vals|
    ensures FieldsSize(s, m, 0, false) == 0
    ensures |Encode(s, m, false)| == FieldsSize(s, m, |s.fields|, false) + RecordsSize(m.unknown)
    ensures m.unknown == [] ==> RecordsSize(m.unknown) == 0
  {
    SizeIsLength(s, m, false);
    SizeAdds(s, m, false);
  }

  /** The sizes of children with their length prefixes. */
  ghost function ChildrenSize(child: Schema, items: seq<Message>): nat {
    if items == [] then 0
    else LengthDelimitedSize(|Encode(child, items[0], false)|) + ChildrenSize(child, items[1..])
  }

  lemma ChildrenSizeStep(child: Schema, items: seq<Message>, i: nat)
    requires i < |items|
    ensures ChildrenSize(child, items[i..])
         == LengthDelimitedSize(|Encode(child, items[i], false)|) + ChildrenSize(child, items[i + 1..])
  {
    hide Encode;
    assert items[i..][1..] == items[i + 1..];
  }

  lemma ChildrenSizeEnd(child: Schema, items: seq<Message>)
    requires items == []
    ensures ChildrenSize(child, items) == 0
  {}

  lemma {:induction false} ChildrenCounted(num: nat, child: Schema, items: seq<Message>)
    requires num < 16
    ensures RecordsSize(ChildRecords(num, child, items, false)) == |items| + ChildrenSize(child, items)
    decreases |items|
  {
    if items != [] {
      hide Encode;
      var r := Record(num, Bytes(Encode(child, items[0], false)));
      var rest := ChildRecords(num, child, items[1..], false);
      assert ([r] + rest)[1..] == rest;
      assert VarintSize(r.Tag()) == 1;
      ChildrenCounted(num, child, items[1..]);
    }
  }

  lemma ListCounted(s: Schema, m: Message, n: nat, child: Schema)
    requires n < |s.fields| == |m.vals| && n < 15 && s.fields[n] == Repeated(child) && m.vals[n].ListV?
    ensures FieldsSize(s, m, n + 1, false)
         == FieldsSize(s, m, n, false) + |m.vals[n].items| + ChildrenSize(child, m.vals[n].items)
  {
    ListRecords(n + 1, child, m.vals[n]);
    hide FieldRecords, ChildRecords, RecordsSize, ChildrenSize;
    ChildrenCounted(n + 1, child, m.vals[n].items);
  }

  lemma ListRecords(num: nat, child: Schema, v: Value)
    requires v.ListV?
    ensures FieldRecords(num, Repeated(child), v, false) == ChildRecords(num, child, v.items, false)
  {}

  // ----- Merging -----

  function MergeInt32(older: int32, newer: int32): (i: int32)
    ensures IntV(i) == MergeValue(IntV(older), IntV(newer))
  {
    if newer != 0 then newer else older
  }

  function MergeInt64(older: int64, newer: int64): (i: int64)
    ensures IntV(i) == MergeValue(IntV(older), IntV(newer))
  {
    if newer != 0 then newer else older
  }

  function MergeBool(older: bool, newer: bool): (b: bool)
    ensures BoolV(b) == MergeValue(BoolV(older), BoolV(newer))
  {
    if newer then newer else older
  }

  function MergeText(older: seq<byte>, newer: seq<byte>): (text: seq<byte>)
    ensures TextV(text) == MergeValue(TextV(older), TextV(newer))
  {
    if |newer| > 0 then newer else older
  }

  lemma MergeList(a: Message, c: Message, k: nat)
    requires k < |a.vals| == |c.vals| && a.vals[k].ListV? && c.vals[k].ListV?
    ensures MergeValue(a.vals[k], c.vals[k]) == ListV(a.vals[k].items + c.vals[k].items)
  {}

  lemma MergeIs(a: Message, c: Message, m: Message)
    requires |a.vals| == |c.vals| == |m.vals| && m.unknown == a.unknown + c.unknown
    requires forall k | 0 <= k < |m.vals| :: m.vals[k] == MergeValue(a.vals[k], c.vals[k])
    ensures m == Merge(a, c)
  {
    assert m.vals == Merge(a, c).vals;
  }
}
