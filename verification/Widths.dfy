/**
 How much longer the classes write a message than it could be written: only negative int32
 fields are written wider than needed, and the whole message is at most twice as long.
 */
module Widths {
  import opened Wire
  import opened Codec
  import opened RoundTrip
  import opened Bounds

  ghost predicate NoNegativeInt32(s: Schema, m: Message) {
    |m.vals| == |s.fields| && forall k | 0 <= k < |s.fields| :: NoNegativeValue(s.fields[k], m.vals[k])
  }

  ghost predicate NoNegativeValue(k: Kind, v: Value) {
    match k
    case Int32 => v.IntV? && v.i >= 0
    case Repeated(child) => v.ListV? && forall c | c in v.items :: NoNegativeInt32(child, c)
    case _ => true
  }

  lemma {:induction false} DoubledSize(n: nat)
    ensures VarintSize(2 * n + 1) <= VarintSize(n) + 1
  {
    if 2 * n + 1 >= 128 {
      var q := n / 128;
      if n >= 128 {
        DoubledSize(q);
        SizeMonotone((2 * n + 1) / 128, 2 * q + 1);
      }
    }
  }

  lemma FieldWidth(num: nat, k: Kind, v: Value)
    requires HasKind(k, v) && FitsValue(k, v, true)
    ensures var a, c := RecordsSize(FieldRecords(num, k, v, true)), RecordsSize(FieldRecords(num, k, v, false));
      a <= c <= 2 * a && (a == c <==> NoNegativeValue(k, v))
    decreases k
  {
    match k
    case Repeated(child) => ChildrenWidth(num, child, v.items);
    case Int32 =>
      if v.i < 0 {
        NegativeWidth(v.i);
        SizeOne(Record(num, Number(Low32(v.i))));
        SizeOne(Record(num, Number(Extend64(v.i))));
      }
    case _ =>
  }

  lemma NegativeWidth(i: int32)
    requires i < 0
    ensures VarintSize(Low32(i)) == 5 && VarintSize(Extend64(i)) == 10
  {
    Powers();
    WordSizes(Low32(i));
    WordSizes(Extend64(i));
    SizeAtLeast(Low32(i), 5);
    SizeAtLeast(Extend64(i), 10);
  }

  lemma PrefixedWidth(tagSize: nat, n: nat, w: nat)
    requires tagSize >= 1 && n <= w <= 2 * n
    ensures var a, c := tagSize + VarintSize(n) + n, tagSize + VarintSize(w) + w;
      a <= c <= 2 * a && (a == c <==> n == w)
  {
    SizeMonotone(n, w);
    SizeMonotone(w, 2 * n + 1);
    DoubledSize(n);
  }

  lemma ChildWidth(num: nat, child: Schema, c: Message)
    requires HasSchema(child, c) && Fits(child, c, true) && |Encode(child, c, true)| <= MAX_SIZE
    ensures var a, w := RecordSize(Record(num, Bytes(Encode(child, c, true)))),
                        RecordSize(Record(num, Bytes(Encode(child, c, false))));
      a <= w <= 2 * a && (a == w <==> NoNegativeInt32(child, c))
    decreases child, 1, 0
  {
    hide Encode, VarintSize;
    MessageWidth(child, c);
    SizeIsLength(child, c, true);
    SizeIsLength(child, c, false);
    var n, w := |Encode(child, c, true)|, |Encode(child, c, false)|;
    assert n % POW32 == n && w % POW32 == w;
    PrefixedWidth(VarintSize(8 * num + 2), n, w);
  }

  lemma {:induction false} ChildrenWidth(num: nat, child: Schema, items: seq<Message>)
    requires forall c | c in items :: HasSchema(child, c)
    requires FitsValue(Repeated(child), ListV(items), true)
    ensures var a, c := RecordsSize(ChildRecords(num, child, items, true)),
                        RecordsSize(ChildRecords(num, child, items, false));
      a <= c <= 2 * a && (a == c <==> NoNegativeValue(Repeated(child), ListV(items)))
    decreases child, 2, |items|
  {
    if items != [] {
      ChildWidth(num, child, items[0]);
      ChildrenWidth(num, child, items[1..]);
      forall short: bool
        ensures RecordsSize(ChildRecords(num, child, items, short))
             == RecordSize(Record(num, Bytes(Encode(child, items[0], short))))
              + RecordsSize(ChildRecords(num, child, items[1..], short))
      {
        var r, rest := Record(num, Bytes(Encode(child, items[0], short))), ChildRecords(num, child, items[1..], short);
        assert ([r] + rest)[1..] == rest;
      }
    }
  }

  lemma {:induction false} FieldsWidth(s: Schema, m: Message, n: nat)
    requires HasSchema(s, m) && Fits(s, m, true) && n <= |s.fields|
    ensures var a, c := FieldsSize(s, m, n, true), FieldsSize(s, m, n, false);
      a <= c <= 2 * a && (a == c <==> forall k | 0 <= k < n :: NoNegativeValue(s.fields[k], m.vals[k]))
    decreases s, 0, n
  {
    hide FieldRecords, RecordsSize, HasKind, NoNegativeValue, FitsValue;
    if n > 0 {
      FieldsWidth(s, m, n - 1);
      assert HasKind(s.fields[n - 1], m.vals[n - 1]) && FitsValue(s.fields[n - 1], m.vals[n - 1], true);
      FieldWidth(n, s.fields[n - 1], m.vals[n - 1]);
    }
  }

  /** The written size lies between the shortest and twice the shortest, and is the shortest exactly
      when no int32 is negative. */
  lemma {:induction false} MessageWidth(s: Schema, m: Message)
    requires HasSchema(s, m) && Fits(s, m, true)
    ensures Size(s, m, true) <= Size(s, m, false) <= 2 * Size(s, m, true)
    ensures Size(s, m, true) == Size(s, m, false) <==> NoNegativeInt32(s, m)
    decreases s, 0, |s.fields| + 1
  {
    FieldsWidth(s, m, |s.fields|);
    SizeAdds(s, m, true);
    SizeAdds(s, m, false);
  }
}
