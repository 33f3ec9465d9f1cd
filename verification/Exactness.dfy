/**
 When a message survives being written and read back: exactly when it is well formed.
 */
module Exactness {
  import opened Wire
  import opened Utf8
  import opened Codec
  import opened Slots
  import opened RoundTrip
  import opened Bounds
  import opened Widths

  lemma OversizeIsRefused(r: Record, t: seq<byte>)
    requires 1 <= r.num < 0x2000_0000 && r.payload.Bytes? && MAX_SIZE < |r.payload.data| < POW32
    ensures ReadRecord(EncodeRecord(r) + t).Bad?
  {
    hide ReadVarint, Varint, VarintSize;
    var d := r.payload.data;
    assert EncodeRecord(r) + t == Varint(r.Tag()) + (EncodePayload(r.payload) + t);
    TagReadBack(r, EncodePayload(r.payload) + t);
    assert EncodePayload(r.payload) + t == Varint(|d|) + (d + t);
    ReadBackVarint(|d|, d + t, 5);
  }

  /** Written records that can be read at all have readable lengths. */
  lemma {:induction false} ReadableRecordsAreValid(rs: seq<Record>)
    requires Records(EncodeRecords(rs)).Some?
    requires forall r | r in rs :: 1 <= r.num < 0x2000_0000 && (r.payload.Bytes? ==> |r.payload.data| < POW32)
    ensures AllValid(rs)
  {
    if rs != [] {
      var r, t := rs[0], EncodeRecords(rs[1..]);
      assert EncodeRecords(rs) == EncodeRecord(r) + t;
      if r.Valid() {
        RecordReadBack(r, t);
        ReadableRecordsAreValid(rs[1..]);
      } else {
        OversizeIsRefused(r, t);
      }
    }
  }

  lemma {:induction false} ListsOnlyGrow(child: Schema, xs: seq<Message>, rs: seq<Record>)
    requires StoreAll(Repeated(child), ListV(xs), rs).Some?
    ensures var v := StoreAll(Repeated(child), ListV(xs), rs).value;
      v.ListV? && xs <= v.items
    decreases |rs|
  {
    if rs != [] {
      var v := Store(Repeated(child), ListV(xs), rs[0].payload).value;
      ListsOnlyGrow(child, v.items, rs[1..]);
    }
  }

  /** Children that come back in their places were each read back. */
  lemma {:induction false} ChildrenCameBack(num: nat, child: Schema, xs: seq<Message>, items: seq<Message>)
    requires StoreAll(Repeated(child), ListV(xs), ChildRecords(num, child, items, false)) == Some(ListV(xs + items))
    ensures forall c | c in items :: Parse(child, Default(child), Encode(child, c, false)) == Done(c)
    decreases |items|
  {
    if items != [] {
      var rest := ChildRecords(num, child, items[1..], false);
      var r := Record(num, Bytes(Encode(child, items[0], false)));
      assert ChildRecords(num, child, items, false) == [r] + rest;
      assert ([r] + rest)[1..] == rest;
      var c := Parse(child, Default(child), Encode(child, items[0], false)).m;
      ListsOnlyGrow(child, xs + [c], rest);
      assert (xs + items)[|xs|] == items[0] && (xs + [c])[|xs|] == c;
      assert xs + items == xs + [c] + items[1..];
      ChildrenCameBack(num, child, xs + [c], items[1..]);
    }
  }

  lemma {:induction false} MemberRecord(num: nat, child: Schema, items: seq<Message>, c: Message, short: bool)
    requires c in items
    ensures Record(num, Bytes(Encode(child, c, short))) in ChildRecords(num, child, items, short)
    decreases |items|
  {
    if c != items[0] { MemberRecord(num, child, items[1..], c, short); }
  }

  lemma {:induction false} FieldsAreMembers(s: Schema, m: Message, k: nat, n: nat, short: bool)
    requires k < n <= |s.fields| == |m.vals|
    ensures forall r | r in FieldRecords(k + 1, s.fields[k], m.vals[k], short) :: r in FieldsTo(s, m, n, short)
  {
    if k < n - 1 { FieldsAreMembers(s, m, k, n - 1, short); }
  }

  /** Before sizes are known to be readable they are at least below 4 GiB. */
  lemma {:induction false} RecordsBelowPow32(s: Schema, m: Message, n: nat)
    requires Legal(s) && HasSchema(s, m) && Fits(s, m, true) && n <= |s.fields|
    ensures forall r | r in FieldsTo(s, m, n, false) ::
      1 <= r.num < 0x2000_0000 && (r.payload.Bytes? ==> |r.payload.data| < POW32)
  {
    hide FieldsTo, FieldRecords, Encode;
    if n == 0 {
      NoFields(s, m);
    } else {
      RecordsBelowPow32(s, m, n - 1);
      NextField(s, m, n - 1, false);
      var k, v := s.fields[n - 1], m.vals[n - 1];
      assert HasKind(k, v) && FitsValue(k, v, true);
      FieldRecordsBelong(n, k, v, false);
      FieldBelowPow32(n, k, v);
    }
  }

  lemma NoFields(s: Schema, m: Message)
    ensures FieldsTo(s, m, 0, false) == []
  {}

  lemma FieldBelowPow32(num: nat, k: Kind, v: Value)
    requires HasKind(k, v) && FitsValue(k, v, true)
    ensures forall r | r in FieldRecords(num, k, v, false) :: r.payload.Bytes? ==> |r.payload.data| < POW32
  {
    if k.Repeated? {
      ChildrenBelowPow32(num, k.child, v.items);
      hide ChildRecords, Encode;
    }
  }

  lemma {:induction false} ChildrenBelowPow32(num: nat, child: Schema, items: seq<Message>)
    requires forall c | c in items ::
      HasSchema(child, c) && Fits(child, c, true) && |Encode(child, c, true)| <= MAX_SIZE
    ensures forall r | r in ChildRecords(num, child, items, false) :: r.payload.Bytes? && |r.payload.data| < POW32
    decreases |items|
  {
    if items != [] {
      MessageWidth(child, items[0]);
      SizeIsLength(child, items[0], true);
      SizeIsLength(child, items[0], false);
      ChildrenBelowPow32(num, child, items[1..]);
    }
  }

  lemma {:induction false} RoundTripNeedsReadableSizes(s: Schema, m: Message)
    requires Legal(s) && HasSchema(s, m)
    requires Parse(s, Default(s), Encode(s, m, false)) == Done(m)
    ensures Fits(s, m, false)
    decreases s
  {
    var b, rs := Encode(s, m, false), ToRecords(s, m, false);
    DefaultIsWellFormed(s, true);
    ParseKeeps(s, Default(s), b);
    ParseIsInterpret(s, Default(s), b);
    RecordsBelowPow32(s, m, |s.fields|);
    ReadableRecordsAreValid(rs);
    RecordsReadBack(rs);
    InterpretIsBySlot(s, Default(s), rs);
    forall k | 0 <= k < |s.fields|
      ensures FitsValue(s.fields[k], m.vals[k], false)
    {
      SlotsOfMessage(s, m, k, false);
      FieldsAreMembers(s, m, k, |s.fields|, false);
      FieldFits(s, k, m);
    }
  }

  lemma {:induction false} FieldFits(s: Schema, k: nat, m: Message)
    requires Legal(s) && HasSchema(s, m) && k < |s.fields| && Fits(s, m, true)
    requires var rs := FieldRecords(k + 1, s.fields[k], m.vals[k], false);
      AllValid(rs) && StoreAll(s.fields[k], DefaultValue(s.fields[k]), rs) == Some(m.vals[k])
    ensures FitsValue(s.fields[k], m.vals[k], false)
    decreases s, 0
  {
    var kind, v := s.fields[k], m.vals[k];
    assert HasKind(kind, v);
    if kind.Repeated? {
      assert [] + v.items == v.items;
      ChildrenCameBack(k + 1, kind.child, [], v.items);
      forall c | c in v.items
        ensures |Encode(kind.child, c, false)| <= MAX_SIZE && Fits(kind.child, c, false)
      {
        MemberRecord(k + 1, kind.child, v.items, c, false);
        RoundTripNeedsReadableSizes(kind.child, c);
      }
    }
  }

  /** A message is restored from its own bytes exactly when it is well formed. */
  lemma RoundTripExactly(s: Schema, m: Message)
    requires Legal(s) && HasSchema(s, m)
    ensures Parse(s, Default(s), Encode(s, m, false)) == Done(m) <==> WellFormed(s, m)
  {
    DefaultIsWellFormed(s, true);
    MergeIntoDefault(s, m);
    if WellFormed(s, m) {
      MessageReadBack(s, Default(s), m, false);
    }
    if Parse(s, Default(s), Encode(s, m, false)) == Done(m) {
      ParseKeeps(s, Default(s), Encode(s, m, false));
      RoundTripNeedsReadableSizes(s, m);
    }
  }

  // ----- Messages with invalid text -----

  /** Every text is UTF-8, in children as well. */
  ghost predicate TextsValid(s: Schema, m: Message) {
    |m.vals| == |s.fields| && forall k | 0 <= k < |s.fields| :: ValidTexts(s.fields[k], m.vals[k])
  }

  ghost predicate ValidTexts(k: Kind, v: Value) {
    match k
    case Text => v.TextV? && ValidUtf8(v.s)
    case Repeated(child) => v.ListV? && forall c | c in v.items :: TextsValid(child, c)
    case _ => true
  }

  /** No unknown record belongs to a declared field, in children as well. */
  ghost predicate OnlyUndeclared(s: Schema, m: Message) {
    && |m.vals| == |s.fields|
    && (forall k | 0 <= k < |s.fields| :: UndeclaredIn(s.fields[k], m.vals[k]))
    && forall r | r in m.unknown :: r.Valid() && Slot(s, r) == |s.fields|
  }

  ghost predicate UndeclaredIn(k: Kind, v: Value) {
    k.Repeated? ==> v.ListV? && forall c | c in v.items :: OnlyUndeclared(k.child, c)
  }

  /** The two halves of being clean. */
  lemma {:induction false} CleanIsBoth(s: Schema, m: Message)
    requires HasSchema(s, m)
    ensures Clean(s, m) <==> TextsValid(s, m) && OnlyUndeclared(s, m)
    decreases s
  {
    forall k | 0 <= k < |s.fields|
      ensures CleanValue(s.fields[k], m.vals[k])
         <==> ValidTexts(s.fields[k], m.vals[k]) && UndeclaredIn(s.fields[k], m.vals[k])
    {
      CleanFieldIsBoth(s.fields[k], m.vals[k]);
    }
  }

  lemma {:induction false} CleanFieldIsBoth(k: Kind, v: Value)
    requires HasKind(k, v)
    ensures CleanValue(k, v) <==> ValidTexts(k, v) && UndeclaredIn(k, v)
    decreases k
  {
    if k.Repeated? {
      forall c | c in v.items
        ensures Clean(k.child, c) <==> TextsValid(k.child, c) && OnlyUndeclared(k.child, c)
      {
        CleanIsBoth(k.child, c);
      }
    }
  }

  lemma {:induction false} ChildrenAreAccepted(num: nat, child: Schema, xs: seq<Message>, items: seq<Message>)
    requires StoreAll(Repeated(child), ListV(xs), ChildRecords(num, child, items, false)).Some?
    ensures forall c | c in items :: Parse(child, Default(child), Encode(child, c, false)).Done?
    decreases |items|
  {
    if items != [] {
      var rest := ChildRecords(num, child, items[1..], false);
      var r := Record(num, Bytes(Encode(child, items[0], false)));
      assert ChildRecords(num, child, items, false) == [r] + rest;
      assert ([r] + rest)[1..] == rest;
      ChildrenAreAccepted(num, child, xs + [Parse(child, Default(child), r.payload.data).m], items[1..]);
    }
  }

  lemma {:induction false} AcceptedTextIsValid(num: nat, k: Kind, v: Value)
    requires LegalKind(k) && HasKind(k, v) && UndeclaredIn(k, v) && FitsValue(k, v, false)
    requires StoreAll(k, DefaultValue(k), FieldRecords(num, k, v, false)).Some?
    ensures ValidTexts(k, v)
    decreases k
  {
    match k
    case Text =>
      if v.s != [] { assert FieldRecords(num, k, v, false) == [Record(num, Bytes(v.s))]; }
    case Repeated(child) =>
      ChildrenAreAccepted(num, child, [], v.items);
      forall c | c in v.items
        ensures TextsValid(child, c)
      {
        AcceptedTextsAreValid(child, c);
      }
    case _ =>
  }

  lemma {:induction false} AcceptedTextsAreValid(s: Schema, m: Message)
    requires Legal(s) && HasSchema(s, m) && OnlyUndeclared(s, m) && Fits(s, m, false)
    requires Parse(s, Default(s), Encode(s, m, false)).Done?
    ensures TextsValid(s, m)
    decreases s
  {
    hide StoreAll, FieldRecords, Of, Parse, HasKind, FitsValue, UndeclaredIn, ValidTexts;
    var rs := ToRecords(s, m, false);
    FieldsAreValid(s, m, |s.fields|, false);
    RecordsReadBack(rs);
    ParseIsInterpret(s, Default(s), Encode(s, m, false));
    InterpretIsBySlot(s, Default(s), rs);
    forall k | 0 <= k < |s.fields|
      ensures ValidTexts(s.fields[k], m.vals[k])
    {
      SlotsOfMessage(s, m, k, false);
      assert StoreAll(s.fields[k], Default(s).vals[k], Of(s, rs, k)).Some?;
      AcceptedTextIsValid(k + 1, s.fields[k], m.vals[k]);
    }
  }

  /**
   The writer does not refuse text that is not UTF-8, the reader does: a message whose lengths and
   unknown records are in order is accepted by its own class exactly when all its text is valid.
   */
  lemma {:induction false} WrittenIsAcceptedExactly(s: Schema, m: Message)
    requires Legal(s) && HasSchema(s, m) && OnlyUndeclared(s, m) && Fits(s, m, false)
    ensures Parse(s, Default(s), Encode(s, m, false)).Done? <==> TextsValid(s, m)
  {
    CleanIsBoth(s, m);
    if TextsValid(s, m) {
      DefaultIsWellFormed(s, false);
      MessageReadBack(s, Default(s), m, false);
    }
    if Parse(s, Default(s), Encode(s, m, false)).Done? {
      AcceptedTextsAreValid(s, m);
    }
  }
}
