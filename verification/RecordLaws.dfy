/**
 What an accepted input means field by field, read off its records directly: the last number, the
 last text, all the children, everything else. And where a parse stops.
 */
module RecordLaws {
  import opened Wire
  import opened Utf8
  import opened Codec
  import opened Slots
  import opened Concatenation
  import opened WireLaws

  // ----- Defaults -----

  /** The default of a field is what an explicit zero, or an empty text, stores. */
  lemma ExplicitZeroIsDefault(k: Kind, v: Value)
    ensures Expects(k, Number(0)) ==> Store(k, v, Number(0)) == Some(DefaultValue(k))
    ensures k.Text? ==> Store(k, v, Bytes([])) == Some(DefaultValue(k))
    ensures k.Repeated? ==> DefaultValue(k) == ListV([])
  {}

  // ----- Stop tags -----

  /** After an accepted input, tag 0 or an end-group tag stops the parse there; nothing after it matters. */
  lemma StopTagStops(s: Schema, m: Message, a: seq<byte>, tag: uint32, t: seq<byte>)
    requires |m.vals| == |s.fields| && Parse(s, m, a).Done?
    requires tag == 0 || tag % 8 == 4
    ensures Parse(s, m, a + (Varint(tag) + t)) == Stopped(Parse(s, m, a).m, tag, t)
  {
    hide Varint, ReadTag;
    ParseAppend(s, m, a, Varint(tag) + t);
    ReadOfTag(tag, t);
  }

  /** Nothing else stops one: a stopped parse has read whole records, then such a tag. */
  lemma {:induction false} StoppedExactly(s: Schema, m: Message, b: seq<byte>) returns (i: nat)
    requires |m.vals| == |s.fields| && Parse(s, m, b).Stopped?
    ensures i <= |b| && Parse(s, m, b[..i]) == Done(Parse(s, m, b).at)
    ensures var Stopped(_, tag, rest) := Parse(s, m, b);
      ReadTag(b[i..]) == Got(tag, rest) && (tag == 0 || tag % 8 == 4)
    decreases |b|
  {
    hide ReadPayload, ReadTag;
    var r := ReadRecord(b);
    ParseStep(s, m, b);
    if r.Bad? {
      i := 0;
      assert b[0..] == b && b[..0] == [];
    } else {
      var n := |b| - |r.rest|;
      var m' := Apply(s, m, r.value).value;
      RecordPrefix(b);
      var j := StoppedExactly(s, m', r.rest);
      i := n + j;
      assert b[..i] == b[..n] + r.rest[..j] && b[i..] == r.rest[j..];
      hide Parse;
      ParseRecord(s, m, b[..n], r.value, r.rest[..j]);
    }
  }

  lemma ParseRecord(s: Schema, m: Message, a: seq<byte>, r: Record, t: seq<byte>)
    requires |m.vals| == |s.fields| && ReadRecord(a) == Got(r, []) && Apply(s, m, r).Some?
    ensures Parse(s, m, a + t) == Parse(s, Apply(s, m, r).value, t)
  {
    hide Parse;
    RecordAppend(a, t);
    assert [] + t == t;
    ParseStep(s, m, a + t);
  }

  // ----- Fields -----

  /** The last number with this field number, if there is one. */
  function LastNumber(rs: seq<Record>, num: nat, otherwise: uint64): (v: uint64)
    ensures (forall r | r in rs :: !(r.num == num && r.payload.Number?)) ==> v == otherwise
    ensures forall i | 0 <= i < |rs| && rs[i].num == num && rs[i].payload.Number? ::
      (forall j | i < j < |rs| :: !(rs[j].num == num && rs[j].payload.Number?)) ==> v == rs[i].payload.v
    decreases |rs|
  {
    if rs == [] then otherwise
    else LastNumber(rs[1..], num, if rs[0].num == num && rs[0].payload.Number? then rs[0].payload.v else otherwise)
  }

  /** The last length-delimited payload with this field number, if there is one. */
  function LastBytes(rs: seq<Record>, num: nat, otherwise: seq<byte>): (d: seq<byte>)
    ensures (forall r | r in rs :: !(r.num == num && r.payload.Bytes?)) ==> d == otherwise
    ensures forall i | 0 <= i < |rs| && rs[i].num == num && rs[i].payload.Bytes? ::
      (forall j | i < j < |rs| :: !(rs[j].num == num && rs[j].payload.Bytes?)) ==> d == rs[i].payload.data
    decreases |rs|
  {
    if rs == [] then otherwise
    else LastBytes(rs[1..], num, if rs[0].num == num && rs[0].payload.Bytes? then rs[0].payload.data else otherwise)
  }

  /** All length-delimited payloads with this field number, in order. */
  function AllBytes(rs: seq<Record>, num: nat): (ds: seq<seq<byte>>)
    decreases |rs|
  {
    if rs == [] then []
    else (if rs[0].num == num && rs[0].payload.Bytes? then [rs[0].payload.data] else []) + AllBytes(rs[1..], num)
  }

  /** What is left without the numbers and the length-delimited payloads with these field numbers, in order. */
  function Undeclared(rs: seq<Record>, numbers: set<nat>, bytes: set<nat>): (us: seq<Record>)
    decreases |rs|
  {
    if rs == [] then []
    else
      var r := rs[0];
      var declared := if r.payload.Number? then r.num in numbers else r.payload.Bytes? && r.num in bytes;
      (if declared then [] else [r]) + Undeclared(rs[1..], numbers, bytes)
  }

  lemma {:induction false} AllBytesConcat(a: seq<Record>, c: seq<Record>, num: nat)
    ensures AllBytes(a + c, num) == AllBytes(a, num) + AllBytes(c, num)
  {
    if a == [] {
      assert a + c == c;
    } else {
      assert (a + c)[1..] == a[1..] + c;
      AllBytesConcat(a[1..], c, num);
    }
  }

  lemma {:induction false} UndeclaredConcat(a: seq<Record>, c: seq<Record>, numbers: set<nat>, bytes: set<nat>)
    ensures Undeclared(a + c, numbers, bytes) == Undeclared(a, numbers, bytes) + Undeclared(c, numbers, bytes)
  {
    if a == [] {
      assert a + c == c;
    } else {
      assert (a + c)[1..] == a[1..] + c;
      UndeclaredConcat(a[1..], c, numbers, bytes);
    }
  }

  /** What a field holds after the records of an accepted input. */
  ghost predicate FieldLaw(k: Kind, v: Value, rs: seq<Record>, num: nat) {
    match k
    case Int32 => v == IntV(ToInt32(LastNumber(rs, num, 0)))
    case Int64 => v == IntV(ToInt64(LastNumber(rs, num, 0)))
    case Bool => v == BoolV(LastNumber(rs, num, 0) != 0)
    case Text => v == TextV(LastBytes(rs, num, []))
    case Repeated(child) => v.ListV? && ChildrenLaw(child, v.items, AllBytes(rs, num))
  }

  ghost predicate ChildrenLaw(child: Schema, items: seq<Message>, ds: seq<seq<byte>>) {
    |items| == |ds| && forall i | 0 <= i < |ds| :: Parse(child, Default(child), ds[i]) == Done(items[i])
  }

  lemma ChildrenCount(child: Schema, items: seq<Message>, ds: seq<seq<byte>>)
    requires ChildrenLaw(child, items, ds)
    ensures |items| == |ds|
  {}

  /** When the records of a field are accepted: text has to be UTF-8, a child has to be accepted. */
  ghost predicate FieldAccepts(k: Kind, rs: seq<Record>, num: nat) {
    forall r | r in rs && r.num == num && r.payload.Bytes? ::
      match k
      case Text => ValidUtf8(r.payload.data)
      case Repeated(child) => Parse(child, Default(child), r.payload.data).Done?
      case _ => true
  }

  function StoredNumber(k: Kind, n: uint64): Value
    requires Expects(k, Number(0))
  {
    match k
    case Int32 => IntV(ToInt32(n))
    case Int64 => IntV(ToInt64(n))
    case Bool => BoolV(n != 0)
  }

  lemma {:induction false} NumbersByRecords(s: Schema, rs: seq<Record>, k: nat, n: uint64)
    requires k < |s.fields| && Expects(s.fields[k], Number(0))
    ensures StoreAll(s.fields[k], StoredNumber(s.fields[k], n), Of(s, rs, k))
         == Some(StoredNumber(s.fields[k], LastNumber(rs, k + 1, n)))
    decreases |rs|
  {
    if rs == [] {
      NoRecords(s, k, StoredNumber(s.fields[k], n));
    } else {
      hide StoreAll, Of, Parse;
      NumbersByRecords(s, rs[1..], k, if rs[0].num == k + 1 && rs[0].payload.Number? then rs[0].payload.v else n);
      FirstRecord(s, rs, k, StoredNumber(s.fields[k], n));
    }
  }

  lemma NoRecords(s: Schema, k: nat, v: Value)
    requires k < |s.fields|
    ensures StoreAll(s.fields[k], v, Of(s, [], k)) == Some(v)
  {}

  /** The first record is stored in its own field and passed over by the others. */
  lemma FirstRecord(s: Schema, rs: seq<Record>, k: nat, v: Value)
    requires rs != [] && k < |s.fields|
    ensures StoreAll(s.fields[k], v, Of(s, rs, k))
         == if rs[0].num != k + 1 || !Expects(s.fields[k], rs[0].payload)
            then StoreAll(s.fields[k], v, Of(s, rs[1..], k))
            else match Store(s.fields[k], v, rs[0].payload)
              case None => None
              case Some(v') => StoreAll(s.fields[k], v', Of(s, rs[1..], k))
  {
    hide Store;
    var r, rest := rs[0], Of(s, rs[1..], k);
    assert Of(s, rs, k) == if Slot(s, r) == k then [r] + rest else [] + rest;
    assert ([r] + rest)[1..] == rest && [] + rest == rest;
  }

  lemma {:induction false} TextsByRecords(s: Schema, rs: seq<Record>, k: nat, d: seq<byte>)
    requires k < |s.fields| && s.fields[k] == Text
    ensures StoreAll(Text, TextV(d), Of(s, rs, k))
         == if FieldAccepts(Text, rs, k + 1) then Some(TextV(LastBytes(rs, k + 1, d))) else None
    decreases |rs|
  {
    if rs == [] {
      NoRecords(s, k, TextV(d));
    } else {
      hide StoreAll, Of, ValidUtf8;
      var r := rs[0];
      TextsByRecords(s, rs[1..], k, if r.num == k + 1 && r.payload.Bytes? then r.payload.data else d);
      FirstRecord(s, rs, k, TextV(d));
      FirstAccepted(Text, rs, k + 1);
      hide FieldAccepts;
    }
  }

  lemma FirstAccepted(k: Kind, rs: seq<Record>, num: nat)
    requires rs != []
    ensures FieldAccepts(k, rs, num) <==> FieldAccepts(k, rs[..1], num) && FieldAccepts(k, rs[1..], num)
  {
    hide Parse, ValidUtf8;
    assert rs == rs[..1] + rs[1..];
  }

  lemma {:induction false} ChildrenByRecords(s: Schema, rs: seq<Record>, k: nat, xs: seq<Message>)
    returns (ys: seq<Message>)
    requires k < |s.fields| && s.fields[k].Repeated?
    ensures var o := StoreAll(s.fields[k], ListV(xs), Of(s, rs, k));
      && (o.Some? <==> FieldAccepts(s.fields[k], rs, k + 1))
      && (o.Some? ==> o.value == ListV(xs + ys) && ChildrenLaw(s.fields[k].child, ys, AllBytes(rs, k + 1)))
    decreases |rs|
  {
    hide Parse, ChildrenLaw;
    ys := [];
    if rs == [] {
      NoRecords(s, k, ListV(xs));
      NoChildren(s.fields[k].child);
      assert xs + ys == xs;
    } else {
      hide StoreAll, Of;
      var r, child := rs[0], s.fields[k].child;
      FirstRecord(s, rs, k, ListV(xs));
      FirstAccepted(s.fields[k], rs, k + 1);
      if r.num == k + 1 && r.payload.Bytes? {
        var o := Parse(child, Default(child), r.payload.data);
        if o.Done? {
          var rest := ChildrenByRecords(s, rs[1..], k, xs + [o.m]);
          ys := [o.m] + rest;
          Associative(xs, [o.m], rest);
          assert xs + ys == (xs + [o.m]) + rest;
          hide FieldAccepts;
          if FieldAccepts(s.fields[k], rs[1..], k + 1) {
            FirstChild(child, o.m, rest, r.payload.data, AllBytes(rs[1..], k + 1));
          }
        }
      } else {
        ys := ChildrenByRecords(s, rs[1..], k, xs);
        assert [] + AllBytes(rs[1..], k + 1) == AllBytes(rs[1..], k + 1);
      }
    }
  }

  lemma NoChildren(child: Schema)
    ensures ChildrenLaw(child, [], [])
  {}

  lemma FirstChild(child: Schema, c: Message, items: seq<Message>, d: seq<byte>, ds: seq<seq<byte>>)
    requires Parse(child, Default(child), d) == Done(c) && ChildrenLaw(child, items, ds)
    ensures ChildrenLaw(child, [c] + items, [d] + ds)
  {
    hide Parse;
  }

  lemma {:induction false} UnknownByRecords(s: Schema, rs: seq<Record>, numbers: set<nat>, bytes: set<nat>)
    requires Divides(s, numbers, bytes)
    ensures Of(s, rs, |s.fields|) == Undeclared(rs, numbers, bytes)
    decreases |rs|
  {
    if rs != [] {
      UnknownByRecords(s, rs[1..], numbers, bytes);
      hide Divides, Of, Undeclared;
      UnknownStep(s, rs, numbers, bytes);
    }
  }

  lemma UnknownStep(s: Schema, rs: seq<Record>, numbers: set<nat>, bytes: set<nat>)
    requires Divides(s, numbers, bytes) && rs != []
    ensures exists first ::
      && Of(s, rs, |s.fields|) == first + Of(s, rs[1..], |s.fields|)
      && Undeclared(rs, numbers, bytes) == first + Undeclared(rs[1..], numbers, bytes)
  {
    var r := rs[0];
    var first := if Slot(s, r) == |s.fields| then [r] else [];
    assert Of(s, rs, |s.fields|) == first + Of(s, rs[1..], |s.fields|);
    assert Slot(s, r) == |s.fields| <==>
      !(if r.payload.Number? then r.num in numbers else r.payload.Bytes? && r.num in bytes);
    assert Undeclared(rs, numbers, bytes) == first + Undeclared(rs[1..], numbers, bytes);
  }

  /** The field numbers of a schema, by what they expect. */
  ghost predicate Divides(s: Schema, numbers: set<nat>, bytes: set<nat>) {
    && (forall n: nat :: n in numbers <==> 1 <= n <= |s.fields| && Expects(s.fields[n - 1], Number(0)))
    && (forall n: nat :: n in bytes <==> 1 <= n <= |s.fields| && Expects(s.fields[n - 1], Bytes([])))
  }

  lemma FieldByRecords(s: Schema, rs: seq<Record>, k: nat)
    requires k < |s.fields|
    ensures var o := StoreAll(s.fields[k], DefaultValue(s.fields[k]), Of(s, rs, k));
      && (o.Some? <==> FieldAccepts(s.fields[k], rs, k + 1))
      && (o.Some? ==> FieldLaw(s.fields[k], o.value, rs, k + 1))
  {
    var kind := s.fields[k];
    hide StoreAll, Of, Parse, ChildrenLaw;
    if Expects(kind, Number(0)) {
      NumbersByRecords(s, rs, k, 0);
    } else if kind.Text? {
      TextsByRecords(s, rs, k, []);
    } else {
      var ys := ChildrenByRecords(s, rs, k, []);
      assert [] + ys == ys;
    }
  }

  /**
   Which inputs are accepted, and what they mean, by their records alone: whole records, every text
   valid, every child accepted; each field then holds its last number or text or all its children.
   */
  lemma {:induction false} MessageByRecords(s: Schema, b: seq<byte>, numbers: set<nat>, bytes: set<nat>)
    requires Divides(s, numbers, bytes)
    ensures Parse(s, Default(s), b).Done?
       <==> Records(b).Some? && forall k | 0 <= k < |s.fields| :: FieldAccepts(s.fields[k], Records(b).value, k + 1)
    ensures Parse(s, Default(s), b).Done? ==> var m, rs := Parse(s, Default(s), b).m, Records(b).value;
      && (forall k | 0 <= k < |s.fields| :: FieldLaw(s.fields[k], m.vals[k], rs, k + 1))
      && m.unknown == Undeclared(rs, numbers, bytes)
  {
    hide Parse, StoreAll, FieldAccepts, FieldLaw, Of, Divides;
    ParseIsInterpret(s, Default(s), b);
    if Records(b).Some? {
      var rs := Records(b).value;
      InterpretIsBySlot(s, Default(s), rs);
      UnknownByRecords(s, rs, numbers, bytes);
      assert [] + Of(s, rs, |s.fields|) == Of(s, rs, |s.fields|);
      forall k | 0 <= k < |s.fields|
        ensures var o := StoreAll(s.fields[k], Default(s).vals[k], Of(s, rs, k));
          && (o.Some? <==> FieldAccepts(s.fields[k], rs, k + 1))
          && (o.Some? ==> FieldLaw(s.fields[k], o.value, rs, k + 1))
      {
        FieldByRecords(s, rs, k);
      }
    }
  }

  // ----- Written fields -----

  /** The record of a number, unless it is zero. */
  function IntRecords(num: nat, i: int64): (rs: seq<Record>)
    ensures rs == FieldRecords(num, Int32, IntV(i), false) == FieldRecords(num, Int64, IntV(i), false)
  {
    if i == 0 then [] else [Record(num, Number(Extend64(i)))]
  }

  /** The record of a bool, only when it is set. */
  function BoolRecords(num: nat, b: bool): (rs: seq<Record>)
    ensures rs == FieldRecords(num, Bool, BoolV(b), false)
  {
    if b then [Record(num, Number(1))] else []
  }

  /** The record of a text, unless it is empty. */
  function TextRecords(num: nat, text: seq<byte>): (rs: seq<Record>)
    ensures rs == FieldRecords(num, Text, TextV(text), false)
  {
    if text == [] then [] else [Record(num, Bytes(text))]
  }
}
