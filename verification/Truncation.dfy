/**
 Cutting an encoding short. A cut that falls on a record boundary gives the message with only
 its leading records; any other cut is refused.
 */
module Truncation {
  import opened Wire
  import opened Codec
  import opened RoundTrip

  function Least(a: nat, b: nat): nat {
    if a < b then a else b
  }

  /** The first `c` elements, or all of them. */
  function First<T>(rs: seq<T>, c: nat): seq<T> {
    rs[..Least(c, |rs|)]
  }

  /** A field with only the first `c` of the records it is written as. */
  function LeadingValue(k: Kind, v: Value, c: nat): Value {
    if c == 0 then DefaultValue(k)
    else if v.ListV? then ListV(v.items[..Least(c, |v.items|)])
    else v
  }

  /** How many of the first `c` records come after the first `n` fields. */
  function Left(s: Schema, m: Message, n: nat, c: nat): nat
    requires n <= |s.fields|
  {
    var before := |FieldsTo(s, m, n, false)|;
    if c < before then 0 else c - before
  }

  /** The message with only the first `c` of the records it is written as. */
  function Leading(s: Schema, m: Message, c: nat): (t: Message)
    requires |m.vals| == |s.fields|
    ensures |t.vals| == |s.fields|
  {
    Message(seq(|s.fields|, k requires 0 <= k < |s.fields| =>
                  LeadingValue(s.fields[k], m.vals[k], Left(s, m, k, c))),
            First(m.unknown, Left(s, m, |s.fields|, c)))
  }

  lemma {:induction false} LeadingChildren(num: nat, child: Schema, items: seq<Message>, c: nat)
    requires c <= |items|
    ensures |ChildRecords(num, child, items, false)| == |items|
    ensures ChildRecords(num, child, items[..c], false) == ChildRecords(num, child, items, false)[..c]
    decreases |items|
  {
    if items != [] {
      LeadingChildren(num, child, items[1..], if c == 0 then 0 else c - 1);
      if c > 0 { assert items[..c][1..] == items[1..][..c - 1]; }
    }
  }

  lemma LeadingField(num: nat, k: Kind, v: Value, c: nat)
    requires HasKind(k, v)
    ensures var rs := FieldRecords(num, k, v, false);
      FieldRecords(num, k, LeadingValue(k, v, c), false) == First(rs, c)
  {
    DefaultFieldIsSkipped(num, k, false);
    if k.Repeated? {
      LeadingChildren(num, k.child, v.items, Least(c, |v.items|));
    }
  }

  lemma FirstOfConcat<T>(a: seq<T>, b: seq<T>, c: nat)
    ensures First(a + b, c) == First(a, c) + First(b, if c < |a| then 0 else c - |a|)
  {}

  /** One more field: its leading records follow those of the fields before it. */
  lemma LeadingStep(s: Schema, m: Message, c: nat, t: Message, n: nat)
    requires |m.vals| == |s.fields| == |t.vals| && 0 < n <= |s.fields|
    requires FieldsTo(s, t, n - 1, false) == First(FieldsTo(s, m, n - 1, false), c)
    requires FieldRecords(n, s.fields[n - 1], t.vals[n - 1], false)
          == First(FieldRecords(n, s.fields[n - 1], m.vals[n - 1], false), Left(s, m, n - 1, c))
    ensures FieldsTo(s, t, n, false) == First(FieldsTo(s, m, n, false), c)
  {
    FirstOfConcat(FieldsTo(s, m, n - 1, false), FieldRecords(n, s.fields[n - 1], m.vals[n - 1], false), c);
  }

  ghost predicate LeadsField(s: Schema, m: Message, c: nat, t: Message, k: nat)
    requires |m.vals| == |s.fields| == |t.vals| && k < |s.fields|
  {
    FieldRecords(k + 1, s.fields[k], t.vals[k], false)
    == First(FieldRecords(k + 1, s.fields[k], m.vals[k], false), Left(s, m, k, c))
  }

  lemma {:induction false} LeadingFields(s: Schema, m: Message, c: nat, t: Message, n: nat)
    requires |m.vals| == |s.fields| == |t.vals| && n <= |s.fields|
    requires forall k | 0 <= k < |s.fields| :: LeadsField(s, m, c, t, k)
    ensures FieldsTo(s, t, n, false) == First(FieldsTo(s, m, n, false), c)
  {
    if n > 0 {
      LeadingFields(s, m, c, t, n - 1);
      assert LeadsField(s, m, c, t, n - 1);
      LeadingStep(s, m, c, t, n);
    }
  }

  lemma LeadsAll(s: Schema, m: Message, c: nat)
    requires HasSchema(s, m)
    ensures forall k | 0 <= k < |s.fields| :: LeadsField(s, m, c, Leading(s, m, c), k)
  {
    hide LeadsField, Leading;
    forall k | 0 <= k < |s.fields|
      ensures LeadsField(s, m, c, Leading(s, m, c), k)
    {
      LeadsOne(s, m, c, k);
    }
  }

  lemma LeadsOne(s: Schema, m: Message, c: nat, k: nat)
    requires HasSchema(s, m) && k < |s.fields|
    ensures LeadsField(s, m, c, Leading(s, m, c), k)
  {
    hide FieldRecords, Left, LeadingValue, FieldsTo;
    assert HasKind(s.fields[k], m.vals[k]);
    LeadingField(k + 1, s.fields[k], m.vals[k], Left(s, m, k, c));
  }

  lemma {:induction false} LeadingRecords(s: Schema, m: Message, c: nat)
    requires HasSchema(s, m) && c <= |ToRecords(s, m, false)|
    ensures ToRecords(s, Leading(s, m, c), false) == ToRecords(s, m, false)[..c]
  {
    LeadsAll(s, m, c);
    hide LeadsField, FieldsTo, LeadingValue;
    LeadingFields(s, m, c, Leading(s, m, c), |s.fields|);
    FirstOfConcat(FieldsTo(s, m, |s.fields|, false), m.unknown, c);
  }

  lemma {:induction false} LeadingIsWellFormed(s: Schema, m: Message, c: nat)
    requires WellFormed(s, m)
    ensures WellFormed(s, Leading(s, m, c))
  {
    var t := Leading(s, m, c);
    DefaultIsWellFormed(s, false);
    forall k | 0 <= k < |s.fields|
      ensures HasKind(s.fields[k], t.vals[k]) && CleanValue(s.fields[k], t.vals[k])
      ensures FitsValue(s.fields[k], t.vals[k], false)
    {
      assert HasKind(s.fields[k], m.vals[k]) && CleanValue(s.fields[k], m.vals[k]);
      assert FitsValue(s.fields[k], m.vals[k], false);
      assert HasKind(s.fields[k], Default(s).vals[k]) && CleanValue(s.fields[k], Default(s).vals[k]);
      assert FitsValue(s.fields[k], Default(s).vals[k], false);
    }
  }

  /** A cut on a record boundary is accepted, and means the message made of the records before it. */
  lemma CutOnBoundary(s: Schema, m: Message, c: nat)
    requires Legal(s) && WellFormed(s, m) && c <= |ToRecords(s, m, false)|
    ensures EncodeRecords(ToRecords(s, m, false)[..c]) == Encode(s, Leading(s, m, c), false)
    ensures Parse(s, Default(s), Encode(s, Leading(s, m, c), false)) == Done(Leading(s, m, c))
  {
    LeadingRecords(s, m, c);
    LeadingIsWellFormed(s, m, c);
    DefaultIsWellFormed(s, false);
    MessageReadBack(s, Default(s), Leading(s, m, c), false);
    MergeIntoDefault(s, Leading(s, m, c));
  }

  /** Position `i` is where the first `c` records end. */
  predicate CutsAt(s: Schema, m: Message, i: nat, c: nat) {
    c <= |ToRecords(s, m, false)| && i == |EncodeRecords(ToRecords(s, m, false)[..c])|
  }

  lemma PrefixOfRecords(rs: seq<Record>, c: nat)
    requires c <= |rs|
    ensures EncodeRecords(rs[..c]) <= EncodeRecords(rs)
  {
    hide EncodeRecords;
    assert rs == rs[..c] + rs[c..];
    EncodeConcat(rs[..c], rs[c..]);
  }

  /** A prefix of an encoding is accepted exactly when it ends on a record boundary. */
  lemma {:induction false} PrefixAcceptedExactly(s: Schema, m: Message, i: nat)
    requires Legal(s) && WellFormed(s, m) && i <= |Encode(s, m, false)|
    ensures Parse(s, Default(s), Encode(s, m, false)[..i]).Done? <==> exists c :: CutsAt(s, m, i, c)
  {
    var rs, p := ToRecords(s, m, false), Encode(s, m, false)[..i];
    RecordsOfEncoding(s, m, false);
    RecordsCut(rs, i);
    ParseIsInterpret(s, Default(s), p);
    forall c | 0 <= c <= |rs|
      ensures EncodeRecords(rs[..c]) == p <==> CutsAt(s, m, i, c)
      ensures Parse(s, Default(s), EncodeRecords(rs[..c])).Done?
    {
      PrefixOfRecords(rs, c);
      CutOnBoundary(s, m, c);
    }
    if Parse(s, Default(s), p).Done? {
      var c :| 0 <= c <= |rs| && EncodeRecords(rs[..c]) == p;
      assert CutsAt(s, m, i, c);
    }
  }

  /** It then parses to the message made of the records before the cut. */
  lemma {:induction false} PrefixMeansLeading(s: Schema, m: Message, i: nat, c: nat)
    requires Legal(s) && WellFormed(s, m) && i <= |Encode(s, m, false)| && CutsAt(s, m, i, c)
    ensures Parse(s, Default(s), Encode(s, m, false)[..i]) == Done(Leading(s, m, c))
    ensures ToRecords(s, Leading(s, m, c), false) == ToRecords(s, m, false)[..c]
  {
    hide ToRecords, Leading, EncodeRecords, Parse, HasKind, CleanValue, FitsValue;
    PrefixOfRecords(ToRecords(s, m, false), c);
    assert Encode(s, m, false)[..i] == EncodeRecords(ToRecords(s, m, false)[..c]);
    CutOnBoundary(s, m, c);
    LeadingRecords(s, m, c);
  }
}
