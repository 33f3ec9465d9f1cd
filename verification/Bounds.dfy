/**
 What every successful parse keeps: clean messages stay clean, and the shortest encoding of the
 message never outgrows the bytes it was parsed from.
 */
module Bounds {
  import opened Wire
  import opened Codec
  import opened RoundTrip

  // ----- Lengths of written fields -----

  function Size(s: Schema, m: Message, short: bool): nat {
    RecordsSize(ToRecords(s, m, short))
  }

  lemma SizeIsLength(s: Schema, m: Message, short: bool)
    ensures |Encode(s, m, short)| == Size(s, m, short)
  {
    RecordsLength(ToRecords(s, m, short));
  }

  function FieldSize(s: Schema, m: Message, k: nat, short: bool): nat
    requires k < |s.fields| == |m.vals|
  {
    RecordsSize(FieldRecords(k + 1, s.fields[k], m.vals[k], short))
  }

  function FieldsSize(s: Schema, m: Message, n: nat, short: bool): nat
    requires n <= |s.fields| == |m.vals|
  {
    if n == 0 then 0 else FieldsSize(s, m, n - 1, short) + FieldSize(s, m, n - 1, short)
  }

  lemma {:induction false} FieldsSizeAdds(s: Schema, m: Message, n: nat, short: bool)
    requires n <= |s.fields| == |m.vals|
    ensures RecordsSize(FieldsTo(s, m, n, short)) == FieldsSize(s, m, n, short)
  {
    hide FieldRecords, RecordsSize;
    SizeNone();
    if n > 0 {
      FieldsSizeAdds(s, m, n - 1, short);
      var before, here := FieldsTo(s, m, n - 1, short), FieldRecords(n, s.fields[n - 1], m.vals[n - 1], short);
      assert FieldsTo(s, m, n, short) == before + here;
      SizeConcat(before, here);
    }
  }

  /** A message's size is the sum over its declared fields and its unknown records. */
  lemma SizeAdds(s: Schema, m: Message, short: bool)
    requires |s.fields| == |m.vals|
    ensures Size(s, m, short) == FieldsSize(s, m, |s.fields|, short) + RecordsSize(m.unknown)
  {
    FieldsSizeAdds(s, m, |s.fields|, short);
    SizeConcat(FieldsTo(s, m, |s.fields|, short), m.unknown);
  }

  lemma {:induction false} SizeAfterUpdate(s: Schema, m: Message, m': Message, k: nat, n: nat, short: bool)
    requires k < |s.fields| == |m.vals| && n <= |s.fields|
    requires |m'.vals| == |m.vals| && m'.vals == m.vals[k := m'.vals[k]]
    ensures FieldsSize(s, m', n, short) + (if k < n then FieldSize(s, m, k, short) else 0)
         == FieldsSize(s, m, n, short) + (if k < n then FieldSize(s, m', k, short) else 0)
  {
    hide FieldRecords;
    if n > 0 { SizeAfterUpdate(s, m, m', k, n - 1, short); }
  }

  lemma {:induction false} SizeAfterUpdateUnknown(s: Schema, m: Message, m': Message, n: nat, short: bool)
    requires n <= |s.fields| == |m.vals| && m'.vals == m.vals
    ensures FieldsSize(s, m', n, short) == FieldsSize(s, m, n, short)
  {
    if n > 0 { SizeAfterUpdateUnknown(s, m, m', n - 1, short); }
  }

  lemma {:induction false} ChildRecordsConcat(num: nat, child: Schema, xs: seq<Message>, ys: seq<Message>, short: bool)
    ensures ChildRecords(num, child, xs + ys, short)
         == ChildRecords(num, child, xs, short) + ChildRecords(num, child, ys, short)
    decreases |xs|
  {
    if xs == [] {
      assert xs + ys == ys;
    } else {
      assert (xs + ys)[1..] == xs[1..] + ys;
      ChildRecordsConcat(num, child, xs[1..], ys, short);
    }
  }

  /** A longer payload makes a longer record. */
  lemma LongerPayload(num: nat, d: seq<byte>, e: seq<byte>)
    requires |d| <= |e| < POW32
    ensures RecordSize(Record(num, Bytes(d))) <= RecordSize(Record(num, Bytes(e)))
  {
    hide VarintSize;
    SizeMonotone(|d|, |e|);
  }

  lemma SmallerNumber(num: nat, v: uint64, w: uint64)
    requires v <= w
    ensures RecordSize(Record(num, Number(v))) <= RecordSize(Record(num, Number(w)))
  {
    hide VarintSize;
    SizeMonotone(v, w);
  }

  lemma NumberStored(num: nat, k: Kind, n: uint64)
    requires Expects(k, Number(n))
    ensures RecordsSize(FieldRecords(num, k, Store(k, DefaultValue(k), Number(n)).value, true))
         <= RecordSize(Record(num, Number(n)))
  {
    hide VarintSize;
    var v := Store(k, DefaultValue(k), Number(n)).value;
    match k
    case Int32 =>
      SizeOne(Record(num, Number(Low32(v.i))));
      SmallerNumber(num, n % POW32, n);
    case Int64 =>
      SizeOne(Record(num, Number(n)));
      assert Extend64(v.i) == n;
    case Bool =>
      SizeOne(Record(num, Number(1)));
      if v.b { SmallerNumber(num, 1, n); }
  }

  lemma ChildAdded(num: nat, child: Schema, items: seq<Message>, c: Message, data: seq<byte>)
    requires |Encode(child, c, true)| <= |data| <= MAX_SIZE
    ensures RecordsSize(ChildRecords(num, child, items + [c], true))
         <= RecordsSize(ChildRecords(num, child, items, true)) + RecordSize(Record(num, Bytes(data)))
  {
    var r := Record(num, Bytes(Encode(child, c, true)));
    assert ChildRecords(num, child, [c], true) == [r];
    hide Encode, RecordSize, RecordsSize;
    ChildRecordsConcat(num, child, items, [c], true);
    SizeConcat(ChildRecords(num, child, items, true), [r]);
    SizeOne(r);
    LongerPayload(num, Encode(child, c, true), data);
  }

  // ----- What storing, applying and parsing keep -----

  lemma {:induction false} StoreKeeps(num: nat, k: Kind, x: Value, p: Payload)
    requires LegalKind(k) && HasKind(k, x) && CleanValue(k, x)
    requires Expects(k, p) && Store(k, x, p).Some?
    requires p.Bytes? ==> |p.data| <= MAX_SIZE
    ensures var v := Store(k, x, p).value;
      && HasKind(k, v) && CleanValue(k, v)
      && (FitsValue(k, x, true) ==> FitsValue(k, v, true))
      && RecordsSize(FieldRecords(num, k, v, true))
         <= RecordsSize(FieldRecords(num, k, x, true)) + RecordSize(Record(num, p))
    decreases k
  {
    hide VarintSize, Encode, Parse, RecordSize;
    var v := Store(k, x, p).value;
    match k
    case Int32 => NumberStored(num, k, p.v);
    case Int64 => NumberStored(num, k, p.v);
    case Bool => NumberStored(num, k, p.v);
    case Text =>
      SizeOne(Record(num, p));
    case Repeated(child) =>
      var c := Parse(child, Default(child), p.data).m;
      DefaultIsWellFormed(child, true);
      ParseKeeps(child, Default(child), p.data);
      SizeIsLength(child, Default(child), true);
      SizeIsLength(child, c, true);
      ChildAdded(num, child, x.items, c, p.data);
  }

  lemma KeepUnknown(s: Schema, m: Message, r: Record)
    requires Clean(s, m) && r.Valid() && Slot(s, r) == |s.fields|
    ensures var m' := m.(unknown := m.unknown + [r]);
      && Clean(s, m')
      && (Fits(s, m, true) ==> Fits(s, m', true))
      && Size(s, m', true) == Size(s, m, true) + RecordSize(r)
  {
    var m' := m.(unknown := m.unknown + [r]);
    SizeAdds(s, m, true);
    SizeAdds(s, m', true);
    SizeConcat(m.unknown, [r]);
    SizeOne(r);
    SizeAfterUpdateUnknown(s, m, m', |s.fields|, true);
  }

  lemma ReplaceField(s: Schema, m: Message, k: nat, v: Value)
    requires Clean(s, m) && k < |s.fields|
    requires HasKind(s.fields[k], v) && CleanValue(s.fields[k], v)
    requires FitsValue(s.fields[k], m.vals[k], true) ==> FitsValue(s.fields[k], v, true)
    ensures var m' := m.(vals := m.vals[k := v]);
      && Clean(s, m')
      && (Fits(s, m, true) ==> Fits(s, m', true))
      && Size(s, m', true) + FieldSize(s, m, k, true) == Size(s, m, true) + FieldSize(s, m', k, true)
  {
    var m' := m.(vals := m.vals[k := v]);
    SizeAdds(s, m, true);
    SizeAdds(s, m', true);
    SizeAfterUpdate(s, m, m', k, |s.fields|, true);
  }

  lemma {:induction false} ApplyKeeps(s: Schema, m: Message, r: Record)
    requires Legal(s) && Clean(s, m) && r.Valid() && Apply(s, m, r).Some?
    ensures var m' := Apply(s, m, r).value;
      && Clean(s, m')
      && (Fits(s, m, true) ==> Fits(s, m', true))
      && Size(s, m', true) <= Size(s, m, true) + RecordSize(r)
    decreases s, 0
  {
    hide Size, FieldRecords, RecordsSize, RecordSize, CleanValue, FitsValue;
    var k := Slot(s, r);
    if k == |s.fields| {
      KeepUnknown(s, m, r);
    } else {
      assert HasKind(s.fields[k], m.vals[k]);
      StoreKeeps(k + 1, s.fields[k], m.vals[k], r.payload);
      ReplaceField(s, m, k, Store(s.fields[k], m.vals[k], r.payload).value);
      assert r == Record(k + 1, r.payload);
    }
  }

  lemma {:induction false} InterpretKeeps(s: Schema, m: Message, rs: seq<Record>)
    requires Legal(s) && Clean(s, m) && AllValid(rs) && Interpret(s, m, rs).Some?
    ensures var x := Interpret(s, m, rs).value;
      && Clean(s, x)
      && (Fits(s, m, true) ==> Fits(s, x, true))
      && Size(s, x, true) <= Size(s, m, true) + RecordsSize(rs)
    decreases s, 1, |rs|
  {
    if rs != [] {
      ApplyKeeps(s, m, rs[0]);
      InterpretKeeps(s, Apply(s, m, rs[0]).value, rs[1..]);
    }
  }

  lemma {:induction false} ParseKeeps(s: Schema, m: Message, b: seq<byte>)
    requires Legal(s) && Clean(s, m) && Parse(s, m, b).Done?
    ensures Clean(s, Parse(s, m, b).m)
    ensures Fits(s, m, true) ==> Fits(s, Parse(s, m, b).m, true)
    ensures Size(s, Parse(s, m, b).m, true) <= Size(s, m, true) + |b|
    decreases s, 2
  {
    ParseIsInterpret(s, m, b);
    RecordsAreValid(b);
    RecordsAreShortest(b);
    RecordsLength(Records(b).value);
    InterpretKeeps(s, m, Records(b).value);
  }

  /** A parse that ends at a stop tag keeps as much. */
  lemma {:induction false} StoppedKeeps(s: Schema, m: Message, b: seq<byte>)
    requires Legal(s) && Clean(s, m) && Parse(s, m, b).Stopped?
    ensures Clean(s, Parse(s, m, b).at)
    ensures Fits(s, m, true) ==> Fits(s, Parse(s, m, b).at, true)
    decreases |b|
  {
    ParseStep(s, m, b);
    if ReadRecord(b).Got? {
      ApplyKeeps(s, m, ReadRecord(b).value);
      StoppedKeeps(s, Apply(s, m, ReadRecord(b).value).value, ReadRecord(b).rest);
    }
  }
}
