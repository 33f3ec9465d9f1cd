/**
 One turn of a parse loop: what a class method has to know about the parse it is in the middle
 of, and the readers that move it on by one field.
 */
module ParseSteps {
  import opened Wire
  import opened Utf8
  import opened Codec
  import opened Library

  lemma AtTheEnd(s: Schema, m: Message, b: seq<byte>)
    requires |m.vals| == |s.fields| && b == []
    ensures Parse(s, m, b) == Done(m)
  {}

  /** The loop has read a tag. */
  lemma AfterTag(s: Schema, m: Message, b: seq<byte>)
    requires |m.vals| == |s.fields| && b != []
    ensures Wire.ReadTag(b).Bad? ==> Parse(s, m, b) == Failed
    ensures Wire.ReadTag(b).Got? ==> Parse(s, m, b) == ParseField(s, m, Wire.ReadTag(b).value, Wire.ReadTag(b).rest)
  {}

  lemma AtStopTag(s: Schema, m: Message, tag: uint32, b: seq<byte>)
    requires |m.vals| == |s.fields| && IsStopTag(tag)
    ensures ParseField(s, m, tag, b) == Stopped(m, tag, b) && tag != 1
  {}

  /** The loop has read a payload. */
  lemma AfterPayload(s: Schema, m: Message, tag: uint32, b: seq<byte>)
    requires |m.vals| == |s.fields| && !IsStopTag(tag)
    ensures tag / 8 == 0 || ReadPayload(tag % 8, b).Bad? ==> ParseField(s, m, tag, b) == Failed
    ensures tag / 8 != 0 && ReadPayload(tag % 8, b).Got? ==>
      ParseField(s, m, tag, b) == match Apply(s, m, Record(tag / 8, ReadPayload(tag % 8, b).value))
                                  case None => Failed
                                  case Some(m') => Parse(s, m', ReadPayload(tag % 8, b).rest)
  {}

  /** The loop stores a number. */
  lemma AfterNumber(s: Schema, m: Message, num: nat, b: seq<byte>)
    requires 1 <= num <= |s.fields| == |m.vals| && num < 0x2000_0000
    requires Expects(s.fields[num - 1], Number(0))
    ensures Wire.ReadVarint64(b).Bad? ==> ParseField(s, m, 8 * num, b) == Failed
    ensures Wire.ReadVarint64(b).Got? ==>
      var Got(v, rest) := Wire.ReadVarint64(b);
      var kind := s.fields[num - 1];
      var stored := if kind.Int32? then IntV(ToInt32(v)) else if kind.Int64? then IntV(ToInt64(v)) else BoolV(v != 0);
      ParseField(s, m, 8 * num, b) == Parse(s, m.(vals := m.vals[num - 1 := stored]), rest)
  {
    hide Parse, ParseField;
    assert 8 * num / 8 == num && 8 * num % 8 == 0;
    AfterPayload(s, m, 8 * num, b);
  }

  /** The loop stores a text. */
  lemma AfterText(s: Schema, m: Message, num: nat, b: seq<byte>)
    requires 1 <= num <= |s.fields| == |m.vals| && num < 0x1000_0000
    requires s.fields[num - 1] == Text
    ensures ReadPayload(2, b).Bad? || !ValidUtf8(ReadPayload(2, b).value.data) ==>
      ParseField(s, m, 8 * num + 2, b) == Failed
    ensures ReadPayload(2, b).Got? && ValidUtf8(ReadPayload(2, b).value.data) ==>
      var Got(p, rest) := ReadPayload(2, b);
      ParseField(s, m, 8 * num + 2, b) == Parse(s, m.(vals := m.vals[num - 1 := TextV(p.data)]), rest)
  {
    hide Parse, ParseField;
    var tag := 8 * num + 2;
    assert tag / 8 == num && tag % 8 == 2;
    AfterPayload(s, m, tag, b);
  }

  /** The loop keeps a record the class does not expect. */
  lemma AfterUnknown(s: Schema, m: Message, tag: uint32, b: seq<byte>)
    requires |s.fields| == |m.vals| && !IsStopTag(tag)
    requires 1 <= tag / 8 <= |s.fields| ==>
      tag % 8 != if Expects(s.fields[tag / 8 - 1], Number(0)) then 0 else 2
    ensures tag / 8 == 0 || ReadPayload(tag % 8, b).Bad? ==> ParseField(s, m, tag, b) == Failed
    ensures tag / 8 != 0 && ReadPayload(tag % 8, b).Got? ==>
      var Got(p, rest) := ReadPayload(tag % 8, b);
      ParseField(s, m, tag, b) == Parse(s, m.(unknown := m.unknown + [Record(tag / 8, p)]), rest)
  {
    hide Parse, ParseField;
    AfterPayload(s, m, tag, b);
  }

  /** The loop adds a child. */
  lemma AfterChild(s: Schema, m: Message, num: nat, child: Schema, b: seq<byte>)
    requires 1 <= num <= |s.fields| == |m.vals| && num < 0x1000_0000
    requires s.fields[num - 1] == Repeated(child) && m.vals[num - 1].ListV?
    ensures ReadPayload(2, b).Bad? ==> ParseField(s, m, 8 * num + 2, b) == Failed
    ensures ReadPayload(2, b).Got? ==>
      var Got(p, rest) := ReadPayload(2, b);
      ParseField(s, m, 8 * num + 2, b)
      == match Parse(child, Default(child), p.data)
         case Done(c) => Parse(s, m.(vals := m.vals[num - 1 := ListV(m.vals[num - 1].items + [c])]), rest)
         case _ => Failed
  {
    hide Parse, ParseField;
    var tag := 8 * num + 2;
    assert tag / 8 == num && tag % 8 == 2;
    AfterPayload(s, m, tag, b);
  }

  /** A one-byte tag is on hand: the fast loop and the outer dispatch would read the same. */
  lemma ExpectedTag(s: Schema, m: Message, tag: byte, b: seq<byte>)
    requires |m.vals| == |s.fields| && b != [] && b[0] == tag < 128
    ensures Parse(s, m, b) == ParseField(s, m, tag, b[1..])
  {
    hide ParseField;
    assert ReadVarint(b, 5) == Got(tag, b[1..]);
  }

  // ----- The fast loop over children -----

  /** Where the fast loop ends: with these children added and these bytes left, or in a failure. */
  datatype Run = Ran(items: seq<Message>, rest: seq<byte>) | Broke

  /**
   The fast loop: a length-prefixed child, then another for as long as the next byte is the tag
   itself. It starts after the first tag.
   */
  function FastRun(child: Schema, tag: byte, items: seq<Message>, b: seq<byte>): (run: Run)
    decreases |b|
  {
    match ReadPayload(2, b)
    case Bad => Broke
    case Got(p, rest) =>
      match Parse(child, Default(child), p.data)
      case Stopped(_, _, _) => Broke
      case Failed => Broke
      case Done(c) =>
        if rest != [] && rest[0] == tag then FastRun(child, tag, items + [c], rest[1..])
        else Ran(items + [c], rest)
  }

  /**
   The fast loop is the outer dispatch taken once per child: same message, same position, same
   failures. An overlong tag ends the run and is left to the outer dispatch.
   */
  lemma {:induction false} FastRunRefines(s: Schema, m: Message, num: nat, child: Schema, b: seq<byte>)
    requires 1 <= num <= |s.fields| == |m.vals| && 8 * num + 2 < 128
    requires s.fields[num - 1] == Repeated(child) && m.vals[num - 1].ListV?
    ensures ParseField(s, m, 8 * num + 2, b)
         == match FastRun(child, 8 * num + 2, m.vals[num - 1].items, b)
            case Broke => Failed
            case Ran(items, rest) => Parse(s, m.(vals := m.vals[num - 1 := ListV(items)]), rest)
    decreases |b|
  {
    hide Parse, ParseField;
    AfterChild(s, m, num, child, b);
    var d := ReadPayload(2, b);
    if d.Got? && d.rest != [] && d.rest[0] == 8 * num + 2 {
      var o := Parse(child, Default(child), d.value.data);
      if o.Done? {
        var m' := m.(vals := m.vals[num - 1 := ListV(m.vals[num - 1].items + [o.m])]);
        ExpectedTag(s, m', 8 * num + 2, d.rest);
        FastRunRefines(s, m', num, child, d.rest[1..]);
        var run := FastRun(child, 8 * num + 2, m'.vals[num - 1].items, d.rest[1..]);
        if run.Ran? { assert m'.vals[num - 1 := ListV(run.items)] == m.vals[num - 1 := ListV(run.items)]; }
      }
    }
  }

  /** A finished run added a child and stopped where the next byte is not the tag. */
  lemma {:induction false} FastRunStops(child: Schema, tag: byte, items: seq<Message>, b: seq<byte>)
    requires FastRun(child, tag, items, b).Ran?
    ensures var run := FastRun(child, tag, items, b);
      |run.items| > |items| && items <= run.items && |run.rest| < |b| && (run.rest != [] ==> run.rest[0] != tag)
    decreases |b|
  {
    var d := ReadPayload(2, b);
    if d.rest != [] && d.rest[0] == tag {
      FastRunStops(child, tag, items + [Parse(child, Default(child), d.value.data).m], d.rest[1..]);
    }
  }

  // ----- Readers that move the parse on -----

  /** The dispatch: a switch on the field number, then a comparison of the tag's low byte. */
  predicate TagIs(tag: uint32, expected: nat)
    requires expected < 256
    ensures TagIs(tag, expected) <==> tag == expected
  {
    tag / 8 == expected / 8 && tag % 256 == expected
  }

  /** The tag that the class expects for the field at index `k`. */
  function FieldTag(s: Schema, k: nat): nat
    requires k < |s.fields|
  {
    8 * (k + 1) + if Expects(s.fields[k], Number(0)) then 0 else 2
  }

  // What storing one value does to the values of a class with four, five or six fields.

  lemma UpdateFour(v: seq<Value>, x: Value)
    requires |v| == 4
    ensures v[0 := x] == [x, v[1], v[2], v[3]]
    ensures v[1 := x] == [v[0], x, v[2], v[3]]
    ensures v[2 := x] == [v[0], v[1], x, v[3]]
    ensures v[3 := x] == [v[0], v[1], v[2], x]
  {}

  lemma UpdateFive(v: seq<Value>, x: Value)
    requires |v| == 5
    ensures v[0 := x] == [x, v[1], v[2], v[3], v[4]]
    ensures v[1 := x] == [v[0], x, v[2], v[3], v[4]]
    ensures v[2 := x] == [v[0], v[1], x, v[3], v[4]]
    ensures v[3 := x] == [v[0], v[1], v[2], x, v[4]]
    ensures v[4 := x] == [v[0], v[1], v[2], v[3], x]
  {}

  lemma UpdateSix(v: seq<Value>, x: Value)
    requires |v| == 6
    ensures v[0 := x] == [x, v[1], v[2], v[3], v[4], v[5]]
    ensures v[1 := x] == [v[0], x, v[2], v[3], v[4], v[5]]
    ensures v[2 := x] == [v[0], v[1], x, v[3], v[4], v[5]]
    ensures v[3 := x] == [v[0], v[1], v[2], x, v[4], v[5]]
    ensures v[4 := x] == [v[0], v[1], v[2], v[3], x, v[5]]
    ensures v[5 := x] == [v[0], v[1], v[2], v[3], v[4], x]
  {}

  method NextTag(ghost s: Schema, ghost m: Message, ctx: ParseContext, ptr: nat)
    returns (ok: bool, next: nat, tag: uint32)
    requires |m.vals| == |s.fields| && ctx.Open(ptr) && ptr < ctx.limit
    ensures ok ==> ptr < next <= ctx.limit
    ensures Parse(s, m, ctx.Window(ptr)) == if ok then ParseField(s, m, tag, ctx.Window(next)) else Failed
  {
    hide Parse, ParseField;
    AfterTag(s, m, ctx.Window(ptr));
    ok, next, tag := Library.ReadTag(ctx, ptr);
  }

  method NextInt32(ghost s: Schema, ghost m: Message, ghost num: nat, ctx: ParseContext, ptr: nat)
    returns (ok: bool, next: nat, i: int32)
    requires 1 <= num <= |s.fields| == |m.vals| && num < 0x1000_0000 && s.fields[num - 1] == Int32 && ctx.Open(ptr)
    ensures ok ==> ptr < next <= ctx.limit
    ensures ParseField(s, m, 8 * num, ctx.Window(ptr))
         == if ok then Parse(s, m.(vals := m.vals[num - 1 := IntV(i)]), ctx.Window(next)) else Failed
  {
    hide Parse, ParseField;
    AfterNumber(s, m, num, ctx.Window(ptr));
    var v;
    ok, next, v := Library.ReadVarint64(ctx, ptr);
    i := ToInt32(v);
  }

  method NextInt64(ghost s: Schema, ghost m: Message, ghost num: nat, ctx: ParseContext, ptr: nat)
    returns (ok: bool, next: nat, i: int64)
    requires 1 <= num <= |s.fields| == |m.vals| && num < 0x1000_0000 && s.fields[num - 1] == Int64 && ctx.Open(ptr)
    ensures ok ==> ptr < next <= ctx.limit
    ensures ParseField(s, m, 8 * num, ctx.Window(ptr))
         == if ok then Parse(s, m.(vals := m.vals[num - 1 := IntV(i)]), ctx.Window(next)) else Failed
  {
    hide Parse, ParseField;
    AfterNumber(s, m, num, ctx.Window(ptr));
    var v;
    ok, next, v := Library.ReadVarint64(ctx, ptr);
    i := ToInt64(v);
  }

  method NextBool(ghost s: Schema, ghost m: Message, ghost num: nat, ctx: ParseContext, ptr: nat)
    returns (ok: bool, next: nat, b: bool)
    requires 1 <= num <= |s.fields| == |m.vals| && num < 0x1000_0000 && s.fields[num - 1] == Bool && ctx.Open(ptr)
    ensures ok ==> ptr < next <= ctx.limit
    ensures ParseField(s, m, 8 * num, ctx.Window(ptr))
         == if ok then Parse(s, m.(vals := m.vals[num - 1 := BoolV(b)]), ctx.Window(next)) else Failed
  {
    hide Parse, ParseField;
    AfterNumber(s, m, num, ctx.Window(ptr));
    var v;
    ok, next, v := Library.ReadVarint64(ctx, ptr);
    b := v != 0;
  }

  method NextText(ghost s: Schema, ghost m: Message, ghost num: nat, ctx: ParseContext, ptr: nat)
    returns (ok: bool, next: nat, text: seq<byte>)
    requires 1 <= num <= |s.fields| == |m.vals| && num < 0x1000_0000 && s.fields[num - 1] == Text && ctx.Open(ptr)
    ensures ok ==> ptr < next <= ctx.limit
    ensures ParseField(s, m, 8 * num + 2, ctx.Window(ptr))
         == if ok then Parse(s, m.(vals := m.vals[num - 1 := TextV(text)]), ctx.Window(next)) else Failed
  {
    hide Parse, ParseField;
    AfterText(s, m, num, ctx.Window(ptr));
    ok, next, text := ReadString(ctx, ptr);
    ok := ok && ValidUtf8(text);
  }

  method NextUnknown(ghost s: Schema, ghost m: Message, tag: uint32, ctx: ParseContext, ptr: nat)
    returns (ok: bool, next: nat, r: Record)
    requires |s.fields| == |m.vals| && !IsStopTag(tag) && ctx.Open(ptr)
    requires forall k | 0 <= k < |s.fields| :: tag != FieldTag(s, k)
    ensures ok ==> ptr < next <= ctx.limit
    ensures ParseField(s, m, tag, ctx.Window(ptr))
         == if ok then Parse(s, m.(unknown := m.unknown + [r]), ctx.Window(next)) else Failed
  {
    hide Parse, ParseField;
    if 1 <= tag / 8 <= |s.fields| { assert tag != FieldTag(s, tag / 8 - 1); }
    AfterUnknown(s, m, tag, ctx.Window(ptr));
    ok, next, r := UnknownFieldParse(ctx, tag, ptr);
  }
}
