/**
 Readers with an older schema: what they keep as unknown and write again still holds the whole
 message for a newer reader. With the same schema twice this is idempotence of normalisation.
 */
module Compatibility {
  import opened Wire
  import opened Codec
  import opened Slots
  import opened RoundTrip
  import opened Bounds
  import opened Widths
  import opened Exactness

  lemma SlotInOlder(older: Schema, newer: Schema, r: Record)
    requires Extends(newer, older)
    ensures Slot(older, r) == if Slot(newer, r) < |older.fields| then Slot(newer, r) else |older.fields|
  {}

  /** The old reader's unknown records hold every newer slot in full. */
  lemma {:induction false} SlotsOfUnknown(older: Schema, newer: Schema, rs: seq<Record>, k: nat)
    requires Extends(newer, older)
    ensures k < |older.fields| ==> Of(older, rs, k) == Of(newer, rs, k)
    ensures k >= |older.fields| ==> Of(newer, Of(older, rs, |older.fields|), k) == Of(newer, rs, k)
    ensures k < |older.fields| ==> Of(newer, Of(older, rs, |older.fields|), k) == []
  {
    if rs != [] {
      SlotInOlder(older, newer, rs[0]);
      SlotsOfUnknown(older, newer, rs[1..], k);
      var n := |older.fields|;
      var rest := Of(older, rs[1..], n);
      assert [] + rest == rest;
      OfCons(newer, rs[0], rest, k);
    }
  }

  lemma OldReaderAccepts(older: Schema, newer: Schema, b: seq<byte>)
    requires Legal(newer) && Extends(newer, older) && Parse(newer, Default(newer), b).Done?
    ensures Records(b).Some? && Legal(older)
    ensures Parse(older, Default(older), b).Done?
    ensures var x, m := Parse(older, Default(older), b).m, Parse(newer, Default(newer), b).m;
      && Clean(older, x) && Fits(older, x, true)
      && x.vals == m.vals[..|older.fields|]
      && x.unknown == Of(older, Records(b).value, |older.fields|)
  {
    ParseIsInterpret(newer, Default(newer), b);
    ParseIsInterpret(older, Default(older), b);
    var rs, n := Records(b).value, |older.fields|;
    InterpretIsBySlot(newer, Default(newer), rs);
    InterpretIsBySlot(older, Default(older), rs);
    forall k | 0 <= k < n
      ensures Of(older, rs, k) == Of(newer, rs, k) && older.fields[k] == newer.fields[k]
      ensures Default(older).vals[k] == Default(newer).vals[k]
    {
      SlotsOfUnknown(older, newer, rs, k);
    }
    assert AllStore(older, Default(older), rs);
    assert [] + Of(older, rs, n) == Of(older, rs, n);
    DefaultIsWellFormed(older, true);
    ParseKeeps(older, Default(older), b);
  }

  lemma SlotOfForwarded(older: Schema, newer: Schema, x: Message, rs: seq<Record>, k: nat)
    requires Extends(newer, older) && HasSchema(older, x) && k <= |newer.fields|
    requires x.unknown == Of(older, rs, |older.fields|)
    ensures Of(newer, ToRecords(older, x, false), k)
         == if k < |older.fields| then FieldRecords(k + 1, older.fields[k], x.vals[k], false) else Of(newer, rs, k)
  {
    var n := |older.fields|;
    var fields := FieldsTo(older, x, n, false);
    OfConcat(newer, fields, x.unknown, k);
    SlotsOfUnknown(older, newer, rs, k);
    SlotsOfFields(newer, older, x, n, k, false);
  }

  lemma ForwardedField(older: Schema, newer: Schema, x: Message, rs: seq<Record>, k: nat)
    requires Legal(older) && Extends(newer, older) && Clean(older, x) && Fits(older, x, false)
    requires x.unknown == Of(older, rs, |older.fields|) && k < |newer.fields|
    ensures StoreAll(newer.fields[k], DefaultValue(newer.fields[k]), Of(newer, ToRecords(older, x, false), k))
         == if k < |older.fields| then Some(x.vals[k])
            else StoreAll(newer.fields[k], DefaultValue(newer.fields[k]), Of(newer, rs, k))
  {
    hide StoreAll, FieldRecords, Of, ToRecords, MergeValue;
    SlotOfForwarded(older, newer, x, rs, k);
    if k < |older.fields| {
      var kind := older.fields[k];
      assert kind == newer.fields[k] && HasKind(kind, x.vals[k]) && LegalKind(kind);
      FieldReadBack(k + 1, kind, DefaultValue(kind), x.vals[k], false);
      MergeIntoDefault(older, x);
      assert Merge(Default(older), x).vals[k] == x.vals[k];
    }
  }

  /** What the old reader re-serializes holds the same message for the new reader. */
  lemma OldReaderForwards(older: Schema, newer: Schema, x: Message, rs: seq<Record>, m: Message)
    requires Legal(older) && Extends(newer, older) && Clean(older, x) && Fits(older, x, false)
    requires BySlot(newer, Default(newer), rs) == Some(m)
    requires x.vals == m.vals[..|older.fields|] && x.unknown == Of(older, rs, |older.fields|)
    ensures BySlot(newer, Default(newer), ToRecords(older, x, false)) == Some(m)
  {
    var d, qs := Default(newer), ToRecords(older, x, false);
    forall k | 0 <= k < |newer.fields|
      ensures StoreAll(newer.fields[k], d.vals[k], Of(newer, qs, k))
           == StoreAll(newer.fields[k], d.vals[k], Of(newer, rs, k))
    {
      ForwardedField(older, newer, x, rs, k);
    }
    SlotOfForwarded(older, newer, x, rs, |newer.fields|);
    BySlotAgrees(newer, d, qs, d, rs);
  }

  /**
   Parsing with the old schema, writing, and parsing with the new schema gives what the new
   schema reads directly, for every accepted input, exactly when the old reader's bytes have
   readable lengths.
   */
  lemma {:induction false} OldReadersPassThrough(older: Schema, newer: Schema, b: seq<byte>)
    requires Legal(newer) && Extends(newer, older) && Parse(newer, Default(newer), b).Done?
    ensures Parse(older, Default(older), b).Done?
    ensures var x := Parse(older, Default(older), b).m;
      Parse(newer, Default(newer), Encode(older, x, false)) == Parse(newer, Default(newer), b)
      <==> Fits(older, x, false)
  {
    OldReaderAccepts(older, newer, b);
    var x, m := Parse(older, Default(older), b).m, Parse(newer, Default(newer), b).m;
    var rs, qs := Records(b).value, ToRecords(older, x, false);
    ParseIsInterpret(newer, Default(newer), b);
    InterpretIsBySlot(newer, Default(newer), rs);
    ParseIsInterpret(newer, Default(newer), Encode(older, x, false));
    InterpretIsBySlot(newer, Default(newer), qs);
    if Fits(older, x, false) {
      RecordsOfEncoding(older, x, false);
      OldReaderForwards(older, newer, x, rs, m);
    }
    if Parse(newer, Default(newer), Encode(older, x, false)) == Done(m) {
      ForwardedSizesAreReadable(older, newer, x, rs, m);
    }
  }

  lemma {:induction false} ForwardedSizesAreReadable(older: Schema, newer: Schema, x: Message,
                                                     rs: seq<Record>, m: Message)
    requires Legal(newer) && Legal(older) && Extends(newer, older) && Clean(older, x) && Fits(older, x, true)
    requires |m.vals| == |newer.fields| && x.vals == m.vals[..|older.fields|]
    requires x.unknown == Of(older, rs, |older.fields|)
    requires Parse(newer, Default(newer), Encode(older, x, false)) == Done(m)
    ensures Fits(older, x, false)
  {
    var n, d, qs := |older.fields|, Default(newer), ToRecords(older, x, false);
    ParseIsInterpret(newer, d, Encode(older, x, false));
    RecordsBelowPow32(older, x, n);
    ReadableRecordsAreValid(qs);
    RecordsReadBack(qs);
    InterpretIsBySlot(newer, d, qs);
    forall k | 0 <= k < n
      ensures FitsValue(older.fields[k], x.vals[k], false)
    {
      SlotOfForwarded(older, newer, x, rs, k);
      FieldsAreMembers(older, x, k, n, false);
      FieldFits(older, k, x);
    }
  }

  /** Parsing what was written for a parsed message gives that message again, exactly when it can be read. */
  lemma {:induction false} NormalisationIsIdempotent(s: Schema, b: seq<byte>)
    requires Legal(s) && Parse(s, Default(s), b).Done?
    ensures var m := Parse(s, Default(s), b).m;
      Parse(s, Default(s), Encode(s, m, false)) == Done(m) <==> Fits(s, m, false)
  {
    OldReadersPassThrough(s, s, b);
  }

  /** Without children no length prefix depends on how wide numbers are written. */
  lemma {:induction false} ChildlessFits(s: Schema, m: Message)
    requires Childless(s) && Fits(s, m, true)
    ensures Fits(s, m, false)
  {
    forall k | 0 <= k < |s.fields|
      ensures FitsValue(s.fields[k], m.vals[k], false)
    {
      assert FitsValue(s.fields[k], m.vals[k], true);
    }
  }

  /** An older class without children passes every input of the newer class on, without condition. */
  lemma {:induction false} ChildlessPassThrough(older: Schema, newer: Schema, b: seq<byte>)
    requires Legal(newer) && Extends(newer, older) && Childless(older) && Parse(newer, Default(newer), b).Done?
    ensures Parse(older, Default(older), b).Done?
    ensures Parse(newer, Default(newer), Encode(older, Parse(older, Default(older), b).m, false))
         == Parse(newer, Default(newer), b)
  {
    OldReaderAccepts(older, newer, b);
    OldReadersPassThrough(older, newer, b);
    ChildlessFits(older, Parse(older, Default(older), b).m);
  }

  // ----- Inputs up to a gibibyte are always readable again -----

  lemma {:induction false} ChildrenAreSmaller(num: nat, child: Schema, items: seq<Message>)
    ensures forall c | c in items :: |Encode(child, c, true)| <= RecordsSize(ChildRecords(num, child, items, true))
    decreases |items|
  {
    if items != [] {
      var rest := ChildRecords(num, child, items[1..], true);
      var r := Record(num, Bytes(Encode(child, items[0], true)));
      assert ([r] + rest)[1..] == rest;
      ChildrenAreSmaller(num, child, items[1..]);
    }
  }

  lemma {:induction false} FieldIsSmaller(s: Schema, m: Message, k: nat, n: nat)
    requires k < n <= |s.fields| == |m.vals|
    ensures FieldSize(s, m, k, true) <= FieldsSize(s, m, n, true)
  {
    if k < n - 1 { FieldIsSmaller(s, m, k, n - 1); }
  }

  lemma {:induction false} SmallMessagesFit(s: Schema, m: Message)
    requires HasSchema(s, m) && Fits(s, m, true) && Size(s, m, true) <= MAX_SIZE / 2
    ensures Fits(s, m, false)
    decreases s
  {
    hide Encode, Size, FieldsSize;
    SizeAdds(s, m, true);
    forall k | 0 <= k < |s.fields|
      ensures FitsValue(s.fields[k], m.vals[k], false)
    {
      var kind, v := s.fields[k], m.vals[k];
      assert HasKind(kind, v) && FitsValue(kind, v, true);
      if kind.Repeated? {
        FieldIsSmaller(s, m, k, |s.fields|);
        ChildrenAreSmaller(k + 1, kind.child, v.items);
        forall c | c in v.items
          ensures |Encode(kind.child, c, false)| <= MAX_SIZE && Fits(kind.child, c, false)
        {
          SizeIsLength(kind.child, c, true);
          SizeIsLength(kind.child, c, false);
          MessageWidth(kind.child, c);
          SmallMessagesFit(kind.child, c);
        }
      }
    }
  }

  /** What an input of up to half the size limit is rewritten to can always be read. */
  lemma {:induction false} SmallInputsFit(s: Schema, b: seq<byte>)
    requires Legal(s) && Parse(s, Default(s), b).Done? && |b| <= MAX_SIZE / 2
    ensures Fits(s, Parse(s, Default(s), b).m, false)
  {
    DefaultIsWellFormed(s, true);
    ParseKeeps(s, Default(s), b);
    SizeIsLength(s, Default(s), true);
    SmallMessagesFit(s, Parse(s, Default(s), b).m);
  }

  // ----- Byte-exact forwarding of canonical input -----

  lemma {:induction false} CommonFields(older: Schema, newer: Schema, x: Message, m: Message, n: nat)
    requires Extends(newer, older) && n <= |older.fields| <= |m.vals|
    requires x.vals == m.vals[..|older.fields|]
    ensures FieldsTo(older, x, n, false) == FieldsTo(newer, m, n, false)
  {
    if n > 0 {
      CommonFields(older, newer, x, m, n - 1);
      assert older.fields[n - 1] == newer.fields[n - 1] && x.vals[n - 1] == m.vals[n - 1];
    }
  }

  lemma {:induction false} NewerFieldsAreUnknown(older: Schema, newer: Schema, x: Message, m: Message, n: nat)
    requires Extends(newer, older) && HasSchema(older, x) && HasSchema(newer, m)
    requires x.vals == m.vals[..|older.fields|] && |older.fields| <= n <= |newer.fields|
    ensures FieldsTo(newer, m, n, false)
         == FieldsTo(older, x, |older.fields|, false) + Of(older, FieldsTo(newer, m, n, false), |older.fields|)
  {
    hide FieldsTo, FieldRecords, Of, Slot, HasKind;
    var k := |older.fields|;
    if n == k {
      CommonFields(older, newer, x, m, k);
      SlotsOfFields(older, older, x, k, k, false);
      var all := FieldsTo(older, x, k, false);
      assert all + [] == all;
    } else {
      var before := FieldsTo(newer, m, n - 1, false);
      var here := FieldRecords(n, newer.fields[n - 1], m.vals[n - 1], false);
      NewerFieldsAreUnknown(older, newer, x, m, n - 1);
      NewerFieldIsUnknown(older, newer, m, n - 1);
      OfUniform(older, here, k, k);
      OfConcat(older, before, here, k);
      NextField(newer, m, n - 1, false);
      Associative(FieldsTo(older, x, k, false), Of(older, before, k), here);
    }
  }

  lemma NewerFieldIsUnknown(older: Schema, newer: Schema, m: Message, k: nat)
    requires Extends(newer, older) && HasSchema(newer, m) && |older.fields| <= k < |newer.fields|
    ensures forall r | r in FieldRecords(k + 1, newer.fields[k], m.vals[k], false) :: Slot(older, r) == |older.fields|
  {
    hide FieldRecords;
    assert HasKind(newer.fields[k], m.vals[k]);
    FieldRecordsBelong(k + 1, newer.fields[k], m.vals[k], false);
  }

  /** An old reader writes a new writer's bytes out again unchanged. */
  lemma CanonicalBytesPassUnchanged(older: Schema, newer: Schema, m: Message)
    requires Legal(newer) && Extends(newer, older) && WellFormed(newer, m)
    ensures Parse(older, Default(older), Encode(newer, m, false)).Done?
    ensures Encode(older, Parse(older, Default(older), Encode(newer, m, false)).m, false) == Encode(newer, m, false)
  {
    var b, n := Encode(newer, m, false), |older.fields|;
    MessageReadBack(newer, Default(newer), m, false);
    DefaultIsWellFormed(newer, false);
    MergeIntoDefault(newer, m);
    RecordsOfEncoding(newer, m, false);
    OldReaderAccepts(older, newer, b);
    var x, fields := Parse(older, Default(older), b).m, FieldsTo(newer, m, |newer.fields|, false);
    NewerFieldsAreUnknown(older, newer, x, m, |newer.fields|);
    OfConcat(older, fields, m.unknown, n);
    forall r | r in m.unknown ensures Slot(older, r) == n { SlotInOlder(older, newer, r); }
    OfUniform(older, m.unknown, n, n);
    Associative(FieldsTo(older, x, n, false), Of(older, fields, n), m.unknown);
  }
}
