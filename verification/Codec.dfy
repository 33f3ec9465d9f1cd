/**
 What the generated message classes compute, on values. A schema lists the field kinds of a
 class; every class of message.proto numbers its fields 1, 2, ..., n, so field number k is
 `fields[k - 1]`. A message is the values of its declared fields plus its unknown records.
 */
module Codec {
  import opened Wire
  import opened Utf8

  datatype Kind = Int32 | Int64 | Bool | Text | Repeated(child: Schema)

  datatype Schema = Schema(fields: seq<Kind>)

  datatype Value = IntV(i: int64) | BoolV(b: bool) | TextV(s: seq<byte>) | ListV(items: seq<Message>)

  datatype Message = Message(vals: seq<Value>, unknown: seq<Record>)

  // ----- Types -----

  ghost predicate HasKind(k: Kind, v: Value) {
    match k
    case Int32 => v.IntV? && -POW31 <= v.i < POW31
    case Int64 => v.IntV?
    case Bool => v.BoolV?
    case Text => v.TextV?
    case Repeated(child) => v.ListV? && forall m | m in v.items :: HasSchema(child, m)
  }

  ghost predicate HasSchema(s: Schema, m: Message) {
    |m.vals| == |s.fields| && forall k | 0 <= k < |s.fields| :: HasKind(s.fields[k], m.vals[k])
  }

  function DefaultValue(k: Kind): Value {
    match k
    case Int32 => IntV(0)
    case Int64 => IntV(0)
    case Bool => BoolV(false)
    case Text => TextV([])
    case Repeated(_) => ListV([])
  }

  function Default(s: Schema): (m: Message)
    ensures |m.vals| == |s.fields|
  {
    Message(seq(|s.fields|, k requires 0 <= k < |s.fields| => DefaultValue(s.fields[k])), [])
  }

  // ----- Parsing -----

  /** How a parse loop ends: at the end of its window, at a stop tag with bytes left, or not at all. */
  datatype Outcome = Done(m: Message) | Stopped(at: Message, tag: uint32, rest: seq<byte>) | Failed

  predicate Expects(k: Kind, p: Payload) {
    match k
    case Int32 => p.Number?
    case Int64 => p.Number?
    case Bool => p.Number?
    case Text => p.Bytes?
    case Repeated(_) => p.Bytes?
  }

  /** The declared field a record updates, or |fields| when the record is unknown to the schema. */
  function Slot(s: Schema, r: Record): (k: nat)
    ensures k <= |s.fields|
  {
    if 1 <= r.num <= |s.fields| && Expects(s.fields[r.num - 1], r.payload) then r.num - 1 else |s.fields|
  }

  /** Stores one payload into a field: numbers are narrowed, text is checked, a child is parsed and added. */
  function Store(k: Kind, v: Value, p: Payload): Option<Value>
    requires Expects(k, p)
    decreases k
  {
    match k
    case Int32 => Some(IntV(ToInt32(p.v)))
    case Int64 => Some(IntV(ToInt64(p.v)))
    case Bool => Some(BoolV(p.v != 0))
    case Text => if ValidUtf8(p.data) then Some(TextV(p.data)) else None
    case Repeated(child) =>
      match Parse(child, Default(child), p.data)
      case Done(c) => Some(ListV((if v.ListV? then v.items else []) + [c]))
      case _ => None
  }

  /** One record's effect on a message. */
  function Apply(s: Schema, m: Message, r: Record): (o: Option<Message>)
    requires |m.vals| == |s.fields|
    ensures o.Some? ==> |o.value.vals| == |s.fields|
    decreases s, 0, 0
  {
    var k := Slot(s, r);
    if k == |s.fields| then Some(m.(unknown := m.unknown + [r]))
    else match Store(s.fields[k], m.vals[k], r.payload)
      case None => None
      case Some(v) => Some(m.(vals := m.vals[k := v]))
  }

  /** The outer loop: tag by tag until the window is used up. */
  function Parse(s: Schema, m: Message, b: seq<byte>): (o: Outcome)
    requires |m.vals| == |s.fields|
    ensures o.Done? ==> |o.m.vals| == |s.fields|
    ensures o.Stopped? ==> |o.at.vals| == |s.fields|
    decreases s, |b|, 1
  {
    if b == [] then Done(m)
    else match ReadTag(b)
      case Bad => Failed
      case Got(tag, rest) => ParseField(s, m, tag, rest)
  }

  /** The dispatch on a tag just read, with the bytes after it. */
  function ParseField(s: Schema, m: Message, tag: uint32, b: seq<byte>): (o: Outcome)
    requires |m.vals| == |s.fields|
    ensures o.Done? ==> |o.m.vals| == |s.fields|
    ensures o.Stopped? ==> |o.at.vals| == |s.fields|
    decreases s, |b|, 0
  {
    if IsStopTag(tag) then Stopped(m, tag, b)
    else if tag / 8 == 0 then Failed
    else match ReadPayload(tag % 8, b)
      case Bad => Failed
      case Got(p, rest) =>
        match Apply(s, m, Record(tag / 8, p))
        case None => Failed
        case Some(m') => Parse(s, m', rest)
  }

  /** The meaning of a sequence of records. */
  function Interpret(s: Schema, m: Message, rs: seq<Record>): (o: Option<Message>)
    requires |m.vals| == |s.fields|
    ensures o.Some? ==> |o.value.vals| == |s.fields|
    decreases |rs|
  {
    if rs == [] then Some(m)
    else match Apply(s, m, rs[0])
      case None => None
      case Some(m') => Interpret(s, m', rs[1..])
  }

  lemma ParseStep(s: Schema, m: Message, b: seq<byte>)
    requires |m.vals| == |s.fields| && b != []
    ensures ReadRecord(b).Bad? ==> !Parse(s, m, b).Done?
    ensures ReadRecord(b).Got? ==>
      Parse(s, m, b) == match Apply(s, m, ReadRecord(b).value)
                        case None => Failed
                        case Some(m') => Parse(s, m', ReadRecord(b).rest)
  {
    var tag := ReadTag(b);
    if tag.Got? {
      assert Parse(s, m, b) == ParseField(s, m, tag.value, tag.rest);
    }
  }

  /** A message is parsed to the end of its window exactly when the window is whole records that all apply. */
  lemma {:induction false} ParseIsInterpret(s: Schema, m: Message, b: seq<byte>)
    requires |m.vals| == |s.fields|
    ensures Records(b).Some? && Interpret(s, m, Records(b).value).Some?
        ==> Parse(s, m, b) == Done(Interpret(s, m, Records(b).value).value)
    ensures Parse(s, m, b).Done?
        ==> Records(b).Some? && Interpret(s, m, Records(b).value).Some?
    decreases |b|
  {
    if b != [] {
      ParseStep(s, m, b);
      if ReadRecord(b).Got? {
        var first := ReadRecord(b);
        var m' := Apply(s, m, first.value);
        if m'.Some? {
          ParseIsInterpret(s, m'.value, first.rest);
        }
        if Records(first.rest).Some? {
          var rest := Records(first.rest).value;
          assert Records(b) == Some([first.value] + rest);
          assert ([first.value] + rest)[1..] == rest;
        }
      }
    }
  }

  // ----- Serializing -----

  /**
   The writer of the classes widens an int32 to 64 bits. With `short` set it would keep 32 bits
   instead, which no class does: that variant is the yardstick for how short an input can be.
   */
  function Widen(i: int64, k: Kind, short: bool): uint64 {
    if short && k.Int32? && -POW31 <= i < POW31 then Low32(i) else Extend64(i)
  }

  function FieldRecords(num: nat, k: Kind, v: Value, short: bool): seq<Record>
    decreases k
  {
    match v
    case IntV(i) => if i == 0 then [] else [Record(num, Number(Widen(i, k, short)))]
    case BoolV(b) => if b then [Record(num, Number(1))] else []
    case TextV(s) => if s == [] then [] else [Record(num, Bytes(s))]
    case ListV(items) => if k.Repeated? then ChildRecords(num, k.child, items, short) else []
  }

  function ChildRecords(num: nat, child: Schema, items: seq<Message>, short: bool): seq<Record>
    decreases child, 2, |items|
  {
    if items == [] then []
    else [Record(num, Bytes(Encode(child, items[0], short)))] + ChildRecords(num, child, items[1..], short)
  }

  /** The records of the first `n` declared fields, in field-number order. */
  function FieldsTo(s: Schema, m: Message, n: nat, short: bool): seq<Record>
    requires n <= |s.fields|
    decreases s, 0, n
  {
    if n == 0 then []
    else
      var here := if n <= |m.vals| then FieldRecords(n, s.fields[n - 1], m.vals[n - 1], short) else [];
      FieldsTo(s, m, n - 1, short) + here
  }

  function ToRecords(s: Schema, m: Message, short: bool): seq<Record>
    decreases s, 1, 0
  {
    FieldsTo(s, m, |s.fields|, short) + m.unknown
  }

  function Encode(s: Schema, m: Message, short: bool): seq<byte>
    decreases s, 1, 1
  {
    EncodeRecords(ToRecords(s, m, short))
  }

  // ----- Merging -----

  /** The default of a newer value leaves the older one; lists are appended. */
  function MergeValue(older: Value, newer: Value): Value {
    match newer
    case IntV(i) => if i == 0 then older else newer
    case BoolV(b) => if b then newer else older
    case TextV(s) => if s == [] then older else newer
    case ListV(items) => if older.ListV? then ListV(older.items + items) else newer
  }

  function Merge(a: Message, c: Message): (m: Message)
    requires |a.vals| == |c.vals|
    ensures |m.vals| == |a.vals|
  {
    Message(seq(|a.vals|, k requires 0 <= k < |a.vals| => MergeValue(a.vals[k], c.vals[k])),
            a.unknown + c.unknown)
  }
}
