/**
 Reading back what was written: parsing a well-formed message's encoding on top of any message
 merges it in, so parsing it into a cleared message restores it.
 */
module RoundTrip {
  import opened Wire
  import opened Utf8
  import opened Codec
  import opened Slots

  // ----- Well-formed messages -----

  /** Field numbers must fit in a tag. */
  ghost predicate Legal(s: Schema) {
    && |s.fields| < 0x2000_0000
    && forall k | 0 <= k < |s.fields| :: LegalKind(s.fields[k])
  }

  ghost predicate LegalKind(k: Kind) {
    k.Repeated? ==> Legal(k.child)
  }

  /** Text is UTF-8, and no unknown record belongs to a declared field; in children as well. */
  ghost predicate Clean(s: Schema, m: Message) {
    && HasSchema(s, m)
    && (forall k | 0 <= k < |s.fields| :: CleanValue(s.fields[k], m.vals[k]))
    && forall r | r in m.unknown :: r.Valid() && Slot(s, r) == |s.fields|
  }

  ghost predicate CleanValue(k: Kind, v: Value) {
    match k
    case Text => v.TextV? && ValidUtf8(v.s)
    case Repeated(child) => v.ListV? && forall c | c in v.items :: Clean(child, c)
    case _ => true
  }

  /** Every length prefix of the encoding is one that a reader accepts. */
  ghost predicate Fits(s: Schema, m: Message, short: bool) {
    |m.vals| == |s.fields| && forall k | 0 <= k < |s.fields| :: FitsValue(s.fields[k], m.vals[k], short)
  }

  ghost predicate FitsValue(k: Kind, v: Value, short: bool) {
    match k
    case Text => v.TextV? && |v.s| <= MAX_SIZE
    case Repeated(child) =>
      v.ListV? && forall c | c in v.items :: |Encode(child, c, short)| <= MAX_SIZE && Fits(child, c, short)
    case _ => true
  }

  predicate Childless(s: Schema) {
    forall k | 0 <= k < |s.fields| :: !s.fields[k].Repeated?
  }

  ghost predicate WellFormed(s: Schema, m: Message) {
    Clean(s, m) && Fits(s, m, false)
  }

  lemma DefaultIsWellFormed(s: Schema, short: bool)
    ensures Clean(s, Default(s)) && Fits(s, Default(s), short)
    ensures Encode(s, Default(s), short) == []
  {
    DefaultHasNoRecords(s, |s.fields|, short);
  }

  lemma DefaultFieldIsSkipped(num: nat, k: Kind, short: bool)
    ensures FieldRecords(num, k, DefaultValue(k), short) == []
  {
    match k
    case Repeated(child) => assert ChildRecords(num, child, [], short) == [];
    case _ =>
  }

  lemma {:induction false} DefaultHasNoRecords(s: Schema, n: nat, short: bool)
    requires n <= |s.fields|
    ensures FieldsTo(s, Default(s), n, short) == []
  {
    hide FieldRecords, DefaultValue;
    if n > 0 {
      DefaultHasNoRecords(s, n - 1, short);
      DefaultFieldIsSkipped(n, s.fields[n - 1], short);
      var d := Default(s);
      NextField(s, d, n - 1, short);
      assert d.vals[n - 1] == DefaultValue(s.fields[n - 1]);
    }
  }

  lemma MergeIntoDefault(s: Schema, m: Message)
    requires HasSchema(s, m)
    ensures Merge(Default(s), m) == m
  {
    forall k | 0 <= k < |s.fields|
      ensures MergeValue(Default(s).vals[k], m.vals[k]) == m.vals[k]
    {
      assert HasKind(s.fields[k], m.vals[k]);
      if m.vals[k].ListV? { assert [] + m.vals[k].items == m.vals[k].items; }
    }
    assert Merge(Default(s), m).vals == m.vals;
  }

  // ----- The records of a written field -----

  lemma {:induction false} ChildRecordsBelong(num: nat, child: Schema, items: seq<Message>, short: bool)
    ensures forall r | r in ChildRecords(num, child, items, short) :: r.num == num && r.payload.Bytes?
    ensures FitsValue(Repeated(child), ListV(items), short) ==>
      forall r | r in ChildRecords(num, child, items, short) :: |r.payload.data| <= MAX_SIZE
    decreases |items|
  {
    if items != [] {
      ChildRecordsBelong(num, child, items[1..], short);
    }
  }

  lemma FieldRecordsBelong(num: nat, k: Kind, v: Value, short: bool)
    requires HasKind(k, v)
    ensures forall r | r in FieldRecords(num, k, v, short) :: r.num == num && Expects(k, r.payload)
    ensures 1 <= num < 0x2000_0000 && FitsValue(k, v, short) ==> AllValid(FieldRecords(num, k, v, short))
  {
    if k.Repeated? { ChildRecordsBelong(num, k.child, v.items, short); }
  }

  /** The declared fields land in their own slots, for a reader with more fields as well. */
  lemma {:induction false} SlotsOfFields(reader: Schema, s: Schema, m: Message, n: nat, k: nat, short: bool)
    requires Extends(reader, s) && HasSchema(s, m) && n <= |s.fields|
    ensures Of(reader, FieldsTo(s, m, n, short), k)
         == if k < n then FieldRecords(k + 1, s.fields[k], m.vals[k], short) else []
  {
    hide FieldRecords, FieldsTo, Of, Slot, HasKind;
    if n == 0 {
      NoField(reader, s, m, k, short);
    } else {
      SlotsOfFields(reader, s, m, n - 1, k, short);
      NextField(s, m, n - 1, short);
      OneSlot(reader, s, m, n - 1, short);
      var before, here := FieldsTo(s, m, n - 1, short), FieldRecords(n, s.fields[n - 1], m.vals[n - 1], short);
      OfNext(reader, before, here, n - 1, k);
    }
  }

  lemma NoField(reader: Schema, s: Schema, m: Message, k: nat, short: bool)
    ensures Of(reader, FieldsTo(s, m, 0, short), k) == []
  {}

  lemma NextField(s: Schema, m: Message, n: nat, short: bool)
    requires n < |s.fields| == |m.vals|
    ensures FieldsTo(s, m, n + 1, short)
         == FieldsTo(s, m, n, short) + FieldRecords(n + 1, s.fields[n], m.vals[n], short)
  {}

  lemma OneSlot(reader: Schema, s: Schema, m: Message, k: nat, short: bool)
    requires Extends(reader, s) && HasSchema(s, m) && k < |s.fields|
    ensures forall r | r in FieldRecords(k + 1, s.fields[k], m.vals[k], short) :: Slot(reader, r) == k
  {
    assert HasKind(s.fields[k], m.vals[k]);
    FieldRecordsBelong(k + 1, s.fields[k], m.vals[k], short);
    assert reader.fields[k] == s.fields[k];
  }

  /** What a written message holds, slot by slot. */
  lemma SlotsOfMessage(s: Schema, m: Message, k: nat, short: bool)
    requires HasSchema(s, m) && k <= |s.fields|
    requires forall r | r in m.unknown :: Slot(s, r) == |s.fields|
    ensures Of(s, ToRecords(s, m, short), k)
         == if k < |s.fields| then FieldRecords(k + 1, s.fields[k], m.vals[k], short) else m.unknown
  {
    var n := |s.fields|;
    SlotsOfFields(s, s, m, n, k, short);
    OfUniform(s, m.unknown, n, k);
    OfConcat(s, FieldsTo(s, m, n, short), m.unknown, k);
  }

  lemma {:induction false} FieldsAreValid(s: Schema, m: Message, n: nat, short: bool)
    requires Legal(s) && HasSchema(s, m) && Fits(s, m, short) && n <= |s.fields|
    ensures AllValid(FieldsTo(s, m, n, short))
  {
    if n > 0 {
      FieldsAreValid(s, m, n - 1, short);
      assert HasKind(s.fields[n - 1], m.vals[n - 1]);
      FieldRecordsBelong(n, s.fields[n - 1], m.vals[n - 1], short);
    }
  }

  // ----- Reading back -----

  lemma {:induction false} FieldReadBack(num: nat, k: Kind, x: Value, v: Value, short: bool)
    requires LegalKind(k) && HasKind(k, x) && HasKind(k, v) && CleanValue(k, v) && FitsValue(k, v, short)
    ensures StoreAll(k, x, FieldRecords(num, k, v, short)) == Some(MergeValue(x, v))
    decreases k
  {
    match k
    case Repeated(child) => ChildrenReadBack(num, child, x.items, v.items, short);
    case Int32 => NarrowingUndoesWidening(v.i, v.i);
    case Int64 => NarrowingUndoesWidening(0, v.i);
    case _ =>
  }

  lemma {:induction false} ChildrenReadBack(num: nat, child: Schema, xs: seq<Message>, items: seq<Message>, short: bool)
    requires Legal(child)
    requires forall c | c in items :: HasSchema(child, c) && Clean(child, c) && Fits(child, c, short)
    ensures StoreAll(Repeated(child), ListV(xs), ChildRecords(num, child, items, short)) == Some(ListV(xs + items))
    decreases child, 2, |items|
  {
    hide Parse, Encode, HasSchema, Clean, Fits;
    if items == [] {
      assert xs + items == xs;
    } else {
      var c, rest := items[0], ChildRecords(num, child, items[1..], short);
      var r := Record(num, Bytes(Encode(child, c, short)));
      ChildReadBack(child, c, short);
      ChildrenReadBack(num, child, xs + [c], items[1..], short);
      assert ([r] + rest)[0] == r && ([r] + rest)[1..] == rest;
      assert xs + [c] + items[1..] == xs + items;
    }
  }

  lemma {:induction false} ChildReadBack(child: Schema, c: Message, short: bool)
    requires Legal(child) && Clean(child, c) && Fits(child, c, short)
    ensures Parse(child, Default(child), Encode(child, c, short)) == Done(c)
    decreases child, 1, 1
  {
    DefaultIsWellFormed(child, short);
    MessageReadBack(child, Default(child), c, short);
    MergeIntoDefault(child, c);
  }

  lemma RecordsOfEncoding(s: Schema, m: Message, short: bool)
    requires Legal(s) && Clean(s, m) && Fits(s, m, short)
    ensures Records(Encode(s, m, short)) == Some(ToRecords(s, m, short))
    ensures AllValid(ToRecords(s, m, short))
  {
    FieldsAreValid(s, m, |s.fields|, short);
    RecordsReadBack(ToRecords(s, m, short));
  }

  lemma {:induction false} SlotsReadBack(s: Schema, x: Message, m: Message, short: bool)
    requires Legal(s) && HasSchema(s, x) && Clean(s, m) && Fits(s, m, short)
    ensures BySlot(s, x, ToRecords(s, m, short)) == Some(Merge(x, m))
    decreases s, 0, 0
  {
    hide StoreAll, FieldRecords, Of, MergeValue, FieldsTo;
    var rs := ToRecords(s, m, short);
    forall k | 0 <= k < |s.fields|
      ensures StoreAll(s.fields[k], x.vals[k], Of(s, rs, k)) == Some(MergeValue(x.vals[k], m.vals[k]))
    {
      SlotsOfMessage(s, m, k, short);
      FieldReadBack(k + 1, s.fields[k], x.vals[k], m.vals[k], short);
    }
    SlotsOfMessage(s, m, |s.fields|, short);
    BySlotIs(s, x, rs, Merge(x, m));
  }

  /** Parsing the encoding of a well-formed message merges the message in. */
  lemma {:induction false} MessageReadBack(s: Schema, x: Message, m: Message, short: bool)
    requires Legal(s) && HasSchema(s, x) && Clean(s, m) && Fits(s, m, short)
    ensures Parse(s, x, Encode(s, m, short)) == Done(Merge(x, m))
    decreases s, 1, 0
  {
    RecordsOfEncoding(s, m, short);
    SlotsReadBack(s, x, m, short);
    InterpretIsBySlot(s, x, ToRecords(s, m, short));
    ParseIsInterpret(s, x, Encode(s, m, short));
  }
}
