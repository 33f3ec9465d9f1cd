/**
 The text-chat request and response and the messages they carry.
 */
module TextChat {
  import opened Wire
  import opened Utf8
  import opened Codec
  import opened RoundTrip
  import opened Bounds
  import opened Schemas
  import opened Library
  import opened Framing
  import opened ParseSteps
  import opened WriteSteps
  import opened RecordLaws

  /** Which inputs are a TextChatData, and what its fields then are, by their records alone. */
  lemma TextChatDataByRecords(b: seq<byte>)
    ensures Parse(TEXT_CHAT_DATA, Default(TEXT_CHAT_DATA), b).Done? <==>
      && Records(b).Some?
      && forall r | r in Records(b).value && r.payload.Bytes? && r.num in {1, 3, 4} ::
        ValidUtf8(r.payload.data)
    ensures Parse(TEXT_CHAT_DATA, Default(TEXT_CHAT_DATA), b).Done? ==>
      var m, rs := Parse(TEXT_CHAT_DATA, Default(TEXT_CHAT_DATA), b).m, Records(b).value;
      && m.vals[0] == TextV(LastBytes(rs, 1, []))
      && m.vals[1] == IntV(ToInt32(LastNumber(rs, 2, 0)))
      && m.vals[2] == TextV(LastBytes(rs, 3, []))
      && m.vals[3] == TextV(LastBytes(rs, 4, []))
      && m.unknown == Undeclared(rs, {2}, {1, 3, 4})
  {
    hide Parse, ValidUtf8, ToInt32, ToInt64, LastNumber, LastBytes, Undeclared;
    var s := TEXT_CHAT_DATA;
    MessageByRecords(s, b, {2}, {1, 3, 4});
    if Records(b).Some? {
      var rs := Records(b).value;
      hide Records;
      assert FieldAccepts(s.fields[0], rs, 1) <==> FieldAccepts(Text, rs, 1);
      assert FieldAccepts(s.fields[1], rs, 2);
      assert FieldAccepts(s.fields[2], rs, 3) <==> FieldAccepts(Text, rs, 3);
      assert FieldAccepts(s.fields[3], rs, 4) <==> FieldAccepts(Text, rs, 4);
    }
    if Parse(s, Default(s), b).Done? {
      var m, rs := Parse(s, Default(s), b).m, Records(b).value;
      assert FieldLaw(s.fields[0], m.vals[0], rs, 1);
      assert FieldLaw(s.fields[1], m.vals[1], rs, 2);
      assert FieldLaw(s.fields[2], m.vals[2], rs, 3);
      assert FieldLaw(s.fields[3], m.vals[3], rs, 4);
    }
  }

  lemma TextChatDataKinds(m: Message)
    requires HasSchema(TEXT_CHAT_DATA, m)
    ensures |m.vals| == 4
    ensures m.vals[0].TextV? && m.vals[1].IntV? && m.vals[2].TextV? && m.vals[3].TextV?
  {
    var s := TEXT_CHAT_DATA;
    assert HasKind(s.fields[0], m.vals[0]) && HasKind(s.fields[1], m.vals[1]) && HasKind(s.fields[2], m.vals[2]);
    assert HasKind(s.fields[3], m.vals[3]);
  }

  /** The records the fields are written as, in number order. */
  lemma TextChatDataWritten(m: Message)
    requires HasSchema(TEXT_CHAT_DATA, m)
    ensures |m.vals| == 4
    ensures m.vals[0].TextV? && m.vals[1].IntV? && m.vals[2].TextV? && m.vals[3].TextV?
    ensures Encode(TEXT_CHAT_DATA, m, false)
         == EncodeRecords(TextRecords(1, m.vals[0].s) + IntRecords(2, m.vals[1].i)
              + TextRecords(3, m.vals[2].s) + TextRecords(4, m.vals[3].s) + m.unknown)
  {
    var s := TEXT_CHAT_DATA;
    TextChatDataKinds(m);
    assert FieldsTo(s, m, 0, false) == [];
    hide HasSchema, FieldsTo, FieldRecords, EncodeRecords, Extend64, IntRecords, BoolRecords, TextRecords;
    NextField(s, m, 0, false);
    NextField(s, m, 1, false);
    NextField(s, m, 2, false);
    NextField(s, m, 3, false);
    assert FieldsTo(s, m, 1, false) == TextRecords(1, m.vals[0].s);
  }

  /** One text message of a chat. */
  class TextChatData {
    var uniqueId: seq<byte>
    var msgId: int32
    var msgcontent: seq<byte>
    var chatTime: seq<byte>
    var unknown: seq<Record>
    var cachedSize: int32

    /** The message this object holds; the cached size is no part of it. */
    ghost function Contents(): (m: Message)
      reads `uniqueId, `msgId, `msgcontent, `chatTime, `unknown
      ensures |m.vals| == 4
    {
      Message([TextV(uniqueId), IntV(msgId), TextV(msgcontent), TextV(chatTime)], unknown)
    }

    /** The fields hold what these records say, read on top of nothing. */
    ghost predicate Holds(rs: seq<Record>)
      reads `uniqueId, `msgId, `msgcontent, `chatTime, `unknown
    {
      && uniqueId == LastBytes(rs, 1, [])
      && msgId == ToInt32(LastNumber(rs, 2, 0))
      && msgcontent == LastBytes(rs, 3, [])
      && chatTime == LastBytes(rs, 4, [])
      && unknown == Undeclared(rs, {2}, {1, 3, 4})
    }

    constructor ()
      ensures Contents() == Default(TEXT_CHAT_DATA)
      ensures uniqueId == [] && msgId == 0 && msgcontent == [] && chatTime == []
      ensures unknown == []
    {
      uniqueId := [];
      msgId := 0;
      msgcontent := [];
      chatTime := [];
      unknown, cachedSize := [], 0;
      new;
      assert Contents().vals == Default(TEXT_CHAT_DATA).vals;
    }

    /** The copy constructor: field by field. */
    constructor Copy(from: TextChatData)
      ensures Contents() == from.Contents()
    {
      uniqueId := from.uniqueId;
      msgId := from.msgId;
      msgcontent := from.msgcontent;
      chatTime := from.chatTime;
      unknown, cachedSize := from.unknown, 0;
    }

    method Clear()
      modifies `uniqueId, `msgId, `msgcontent, `chatTime, `unknown
      ensures Contents() == Default(TEXT_CHAT_DATA)
      ensures uniqueId == [] && msgId == 0 && msgcontent == [] && chatTime == []
      ensures unknown == []
    {
      uniqueId := [];
      msgcontent := [];
      chatTime := [];
      msgId := 0;
      unknown := [];
      assert Contents().vals == Default(TEXT_CHAT_DATA).vals;
    }

    /** The switch over the declared fields. */
    method ParseDeclared(ctx: ParseContext, tag: uint32, start: nat, ghost before: Message, ghost window: seq<byte>)
      returns (known: bool, ok: bool, ptr: nat, ghost m: Message)
      requires ctx.Open(start) && window == ctx.Window(start) && Contents() == before
      modifies `uniqueId, `msgId, `msgcontent, `chatTime
      ensures Contents() == m
      ensures !known ==> ptr == start && m == before
      ensures !known ==> forall k | 0 <= k < 4 :: tag != FieldTag(TEXT_CHAT_DATA, k)
      ensures known && ok ==> start < ptr <= ctx.limit
      ensures known ==>
        ParseField(TEXT_CHAT_DATA, before, tag, window)
        == if ok then Parse(TEXT_CHAT_DATA, m, ctx.Window(ptr)) else Failed
    {
      hide Parse, ParseField, TagIs, FieldTag;
      known, m := true, before;
      if TagIs(tag, 10) {
        ok, ptr, uniqueId := NextText(TEXT_CHAT_DATA, before, 1, ctx, start);
        m := before.(vals := before.vals[0 := TextV(uniqueId)]);
        UpdateFour(before.vals, TextV(uniqueId));
      } else if TagIs(tag, 16) {
        ok, ptr, msgId := NextInt32(TEXT_CHAT_DATA, before, 2, ctx, start);
        m := before.(vals := before.vals[1 := IntV(msgId)]);
        UpdateFour(before.vals, IntV(msgId));
      } else if TagIs(tag, 26) {
        ok, ptr, msgcontent := NextText(TEXT_CHAT_DATA, before, 3, ctx, start);
        m := before.(vals := before.vals[2 := TextV(msgcontent)]);
        UpdateFour(before.vals, TextV(msgcontent));
      } else if TagIs(tag, 34) {
        ok, ptr, chatTime := NextText(TEXT_CHAT_DATA, before, 4, ctx, start);
        m := before.(vals := before.vals[3 := TextV(chatTime)]);
        UpdateFour(before.vals, TextV(chatTime));
      } else {
        TextChatDataTags(tag);
        known, ok, ptr := false, true, start;
      }
      assert Contents() == m;
    }

    /** Parses a window on top of what the object holds. */
    method InternalParse(ctx: ParseContext, start: nat) returns (ok: bool, ptr: nat)
      requires ctx.Open(start) && ctx.EndedAtLimit()
      modifies `uniqueId, `msgId, `msgcontent, `chatTime, `unknown, ctx`lastTagMinus1
      ensures Shows(Parse(TEXT_CHAT_DATA, old(Contents()), old(ctx.Window(start))), ok, ptr, ctx, Contents())
    {
      hide Parse, ParseField, IsStopTag, FieldTag;
      ghost var m := Contents();
      ghost var goal := Parse(TEXT_CHAT_DATA, m, ctx.Window(start));
      ok, ptr := true, start;
      while ptr < ctx.limit
        invariant ok && ctx.Open(ptr) && ctx.EndedAtLimit()
        invariant Contents() == m && Parse(TEXT_CHAT_DATA, m, ctx.Window(ptr)) == goal
        decreases ctx.limit - ptr
      {
        var tag, known;
        ok, ptr, tag := NextTag(TEXT_CHAT_DATA, m, ctx, ptr);
        if !ok { return; }
        known, ok, ptr, m := ParseDeclared(ctx, tag, ptr, m, ctx.Window(ptr));
        if !known {
          if IsStopTag(tag) {
            AtStopTag(TEXT_CHAT_DATA, m, tag, ctx.Window(ptr));
            ctx.SetLastTag(tag);
            return true, ptr;
          }
          var r;
          ok, ptr, r := NextUnknown(TEXT_CHAT_DATA, m, tag, ctx, ptr);
          unknown, m := unknown + [r], m.(unknown := m.unknown + [r]);
        }
        if !ok { return; }
      }
      AtTheEnd(TEXT_CHAT_DATA, m, ctx.Window(ptr));
    }

    /** Appends the message. */
    method InternalSerialize(target: seq<byte>) returns (out: seq<byte>)
      ensures out == target + Encode(TEXT_CHAT_DATA, Contents(), false)
      ensures out == target + EncodeRecords(
        TextRecords(1, uniqueId) + IntRecords(2, msgId)
        + TextRecords(3, msgcontent) + TextRecords(4, chatTime) + unknown)
    {
      hide FieldsTo, EncodeRecords, EncodeRecord, Encode, Extend64;
      ghost var m := Contents();
      NothingWritten(TEXT_CHAT_DATA, m, target);
      out := target;
      out := PutText(TEXT_CHAT_DATA, m, target, 1, uniqueId, out);
      out := PutInt32(TEXT_CHAT_DATA, m, target, 2, msgId, out);
      out := PutText(TEXT_CHAT_DATA, m, target, 3, msgcontent, out);
      out := PutText(TEXT_CHAT_DATA, m, target, 4, chatTime, out);
      if unknown != [] { out := InternalSerializeUnknownFieldsToArray(unknown, out); }
      AllFieldsWritten(TEXT_CHAT_DATA, m, target);
      TextChatDataIsTyped(this);
      TextChatDataWritten(m);
    }

    /** Computes the serialized size and remembers it. */
    method ByteSizeLong() returns (total: nat)
      modifies `cachedSize
      ensures total == |Encode(TEXT_CHAT_DATA, Contents(), false)|
      ensures cachedSize == ToCachedSize(total)
    {
      hide CountText, CountInt32, ScalarSize, RecordsSize, Encode, ToInt32;
      TextChatDataSize(Contents());
      total := 0;
      total := total + CountText(uniqueId);
      total := total + CountText(msgcontent);
      total := total + CountText(chatTime);
      total := total + CountInt32(msgId);
      if unknown != [] { total := ComputeUnknownFieldsSize(unknown, total); }
      cachedSize := ToCachedSize(total);
    }

    /** Takes over the other object's non-default fields and its unknown records. */
    method MergeFrom(from: TextChatData)
      requires from != this
      modifies `uniqueId, `msgId, `msgcontent, `chatTime, `unknown
      ensures Contents() == Merge(old(Contents()), from.Contents())
    {
      hide MergeValue, MergeText, MergeInt32;
      ghost var before, added := Contents(), from.Contents();
      unknown := unknown + from.unknown;
      uniqueId := MergeText(uniqueId, from.uniqueId);
      msgcontent := MergeText(msgcontent, from.msgcontent);
      chatTime := MergeText(chatTime, from.chatTime);
      msgId := MergeInt32(msgId, from.msgId);
      MergeIs(before, added, Contents());
    }

    /** Makes the contents equal; copying from itself changes nothing. */
    method CopyFrom(from: TextChatData)
      modifies `uniqueId, `msgId, `msgcontent, `chatTime, `unknown
      ensures Contents() == old(from.Contents())
    {
      if from == this { return; }
      Clear();
      MergeFrom(from);
      TextChatDataIsTyped(from);
      MergeIntoDefault(TEXT_CHAT_DATA, from.Contents());
    }
  }

  /** The fields of an object have the types its schema says. */
  lemma TextChatDataIsTyped(x: TextChatData)
    ensures HasSchema(TEXT_CHAT_DATA, x.Contents())
  {
  }

  /** Any other tag belongs to no field of the class. */
  lemma TextChatDataTags(tag: uint32)
    requires tag !in {10, 16, 26, 34}
    ensures forall k | 0 <= k < 4 :: tag != FieldTag(TEXT_CHAT_DATA, k)
  {}

  /** The size of a message is the sum over its fields. */
  lemma TextChatDataSize(m: Message)
    requires |m.vals| == 4 && forall k | 0 <= k < 4 :: !m.vals[k].ListV?
    ensures |Encode(TEXT_CHAT_DATA, m, false)|
         == ScalarSize(m.vals[0]) + ScalarSize(m.vals[1]) + ScalarSize(m.vals[2])
          + ScalarSize(m.vals[3])
          + RecordsSize(m.unknown)
    ensures m.unknown == [] ==> RecordsSize(m.unknown) == 0
  {
    hide FieldsSize, Encode, ScalarSize, RecordsSize;
    SizeCounted(TEXT_CHAT_DATA, m);
    FieldCounted(TEXT_CHAT_DATA, m, 0);
    FieldCounted(TEXT_CHAT_DATA, m, 1);
    FieldCounted(TEXT_CHAT_DATA, m, 2);
    FieldCounted(TEXT_CHAT_DATA, m, 3);
  }

  /** The contents of several children, in order. */
  ghost function TextChatDatas(cs: seq<TextChatData>): (ms: seq<Message>)
    reads cs`uniqueId, cs`msgId, cs`msgcontent, cs`chatTime, cs`unknown
    ensures |ms| == |cs|
  {
    if cs == [] then [] else [cs[0].Contents()] + TextChatDatas(cs[1..])
  }

  /** The sizes that several children remember. */
  ghost function TextChatDataSizes(cs: seq<TextChatData>): (sizes: seq<int32>)
    reads cs`cachedSize
    ensures |sizes| == |cs|
  {
    if cs == [] then [] else [cs[0].cachedSize] + TextChatDataSizes(cs[1..])
  }

  lemma {:induction false} TextChatDataAt(cs: seq<TextChatData>, i: nat)
    requires i < |cs|
    ensures TextChatDatas(cs)[i] == cs[i].Contents() && TextChatDataSizes(cs)[i] == cs[i].cachedSize
  {
    if i > 0 { TextChatDataAt(cs[1..], i - 1); }
  }

  lemma {:induction false} TextChatDatasConcat(a: seq<TextChatData>, b: seq<TextChatData>)
    ensures TextChatDatas(a + b) == TextChatDatas(a) + TextChatDatas(b)
  {
    if a == [] {
      assert a + b == b;
    } else {
      assert (a + b)[1..] == a[1..] + b;
      TextChatDatasConcat(a[1..], b);
    }
  }

  lemma TextChatDatasOne(c: TextChatData)
    ensures TextChatDatas([c]) == [c.Contents()]
  {
    assert [c][1..] == [];
  }

  lemma TextChatDatasNone()
    ensures TextChatDatas([]) == []
  {}

  /** The children from the `i`-th on. */
  lemma TextChatDatasFrom(cs: seq<TextChatData>, i: nat)
    requires i < |cs|
    ensures TextChatDatas(cs[i..]) == [cs[i].Contents()] + TextChatDatas(cs[i + 1..])
  {
    assert cs[i..][1..] == cs[i + 1..];
  }

  lemma {:induction false} TextChatDatasAreTyped(cs: seq<TextChatData>)
    ensures forall c | c in TextChatDatas(cs) :: HasSchema(TEXT_CHAT_DATA, c)
  {
    if cs != [] {
      TextChatDataIsTyped(cs[0]);
      TextChatDatasAreTyped(cs[1..]);
    }
  }

  /** The records that children are written as. */
  ghost function TextChatDataRecords(num: nat, cs: seq<TextChatData>): (rs: seq<Record>)
    reads cs`uniqueId, cs`msgId, cs`msgcontent, cs`chatTime, cs`unknown
    ensures |rs| == |cs|
  {
    if cs == [] then []
    else [Record(num, Bytes(EncodeRecords(
      TextRecords(1, cs[0].uniqueId) + IntRecords(2, cs[0].msgId)
      + TextRecords(3, cs[0].msgcontent) + TextRecords(4, cs[0].chatTime)
      + cs[0].unknown)))] + TextChatDataRecords(num, cs[1..])
  }

  lemma {:induction false} TextChatDatasWritten(num: nat, cs: seq<TextChatData>)
    ensures ChildRecords(num, TEXT_CHAT_DATA, TextChatDatas(cs), false) == TextChatDataRecords(num, cs)
  {
    if cs != [] {
      hide Encode, EncodeRecords, Extend64;
      TextChatDatasWritten(num, cs[1..]);
      TextChatDataIsTyped(cs[0]);
      TextChatDataWritten(cs[0].Contents());
    }
  }

  /** A child parsed from a payload holds what the payload's records say. */
  lemma TextChatDataLaw(cs: seq<TextChatData>, ds: seq<seq<byte>>, i: nat)
    requires ChildrenLaw(TEXT_CHAT_DATA, TextChatDatas(cs), ds) && i < |ds|
    ensures |cs| == |ds| && Records(ds[i]).Some? && cs[i].Holds(Records(ds[i]).value)
  {
    hide Parse, ToInt32, LastNumber, LastBytes, Undeclared, Records, TextChatDatas, TextChatDataSizes, ValidUtf8;
    TextChatDataAt(cs, i);
    TextChatDataByRecords(ds[i]);
  }

  lemma TextChatDatasHold(cs: seq<TextChatData>, ds: seq<seq<byte>>)
    requires ChildrenLaw(TEXT_CHAT_DATA, TextChatDatas(cs), ds)
    ensures |cs| == |ds|
    ensures forall i | 0 <= i < |ds| :: Records(ds[i]).Some? && cs[i].Holds(Records(ds[i]).value)
  {
    hide TextChatDatas, Records, ChildrenLaw, TextChatData.Holds;
    ChildrenCount(TEXT_CHAT_DATA, TextChatDatas(cs), ds);
    forall i | 0 <= i < |ds| { TextChatDataLaw(cs, ds, i); }
  }

  /** Writes children one by one, each framed with the size it remembers. */
  method InternalWriteTextChatDatas(num: nat, cs: seq<TextChatData>, target: seq<byte>) returns (out: seq<byte>)
    ensures out == target + Framed(num, TEXT_CHAT_DATA, TextChatDatas(cs), TextChatDataSizes(cs))
  {
    hide TextChatDatas, TextChatDataSizes, Framed, Encode, Varint, Low32, EncodeRecords, IntRecords, TextRecords;
    ghost var items, sizes := TextChatDatas(cs), TextChatDataSizes(cs);
    out := target;
    var i := 0;
    while i < |cs|
      invariant i <= |cs|
      invariant out + Framed(num, TEXT_CHAT_DATA, items[i..], sizes[i..])
             == target + Framed(num, TEXT_CHAT_DATA, items, sizes)
    {
      TextChatDataAt(cs, i);
      FramedStep(num, TEXT_CHAT_DATA, items, sizes, i, out);
      out := WriteTag(num, 2, out);
      out := WriteVarint(Low32(cs[i].cachedSize), out);
      out := cs[i].InternalSerialize(out);
      i := i + 1;
    }
    FramedEnd(num, TEXT_CHAT_DATA, items[i..], sizes[i..], out);
  }

  /** Measures children one by one, leaving its size in each. */
  method TextChatDatasByteSize(cs: seq<TextChatData>) returns (total: nat)
    modifies cs`cachedSize
    ensures total == |cs| + ChildrenSize(TEXT_CHAT_DATA, TextChatDatas(cs))
    ensures Fresh(TEXT_CHAT_DATA, TextChatDatas(cs), TextChatDataSizes(cs))
  {
    hide TextChatDatas, TextChatDataSizes, ChildrenSize, Encode, ToInt32;
    ghost var items := TextChatDatas(cs);
    total := |cs|;
    var i := 0;
    while i < |cs|
      invariant i <= |cs|
      invariant total + ChildrenSize(TEXT_CHAT_DATA, items[i..]) == |cs| + ChildrenSize(TEXT_CHAT_DATA, items)
      invariant forall j | 0 <= j < i ::
        cs[j].cachedSize == ToCachedSize(|Encode(TEXT_CHAT_DATA, cs[j].Contents(), false)|)
    {
      TextChatDataAt(cs, i);
      ChildrenSizeStep(TEXT_CHAT_DATA, items, i);
      var size := cs[i].ByteSizeLong();
      total := total + LengthDelimitedSize(size);
      i := i + 1;
    }
    ChildrenSizeEnd(TEXT_CHAT_DATA, items[i..]);
    forall j | 0 <= j < |cs|
      ensures TextChatDataSizes(cs)[j] == cs[j].cachedSize && items[j] == cs[j].Contents()
    {
      TextChatDataAt(cs, j);
    }
  }

  /** A new child that the original is merged into. */
  method Clone(x: TextChatData) returns (c: TextChatData)
    ensures fresh(c) && c.Contents() == x.Contents()
  {
    c := new TextChatData();
    c.MergeFrom(x);
    TextChatDataIsTyped(x);
    MergeIntoDefault(TEXT_CHAT_DATA, x.Contents());
  }

  /** Deep copies, in order. */
  method CopyTextChatDatas(cs: seq<TextChatData>) returns (copies: seq<TextChatData>)
    ensures TextChatDatas(copies) == TextChatDatas(cs)
    ensures fresh(set c | c in copies)
  {
    hide TextChatDatas;
    TextChatDatasNone();
    copies := [];
    var i := 0;
    assert cs[i..] == cs && TextChatDatas(copies) + TextChatDatas(cs) == TextChatDatas(cs);
    while i < |cs|
      invariant i <= |cs| && TextChatDatas(copies) + TextChatDatas(cs[i..]) == TextChatDatas(cs)
      invariant fresh(set c | c in copies)
    {
      TextChatDatasFrom(cs, i);
      ghost var all, done, rest := TextChatDatas(cs), TextChatDatas(copies), TextChatDatas(cs[i + 1..]);
      Associative(done, [cs[i].Contents()], rest);
      var c := Clone(cs[i]);
      assert TextChatDatas(cs) == all && TextChatDatas(copies) == done && TextChatDatas(cs[i + 1..]) == rest;
      TextChatDatasConcat(copies, [c]);
      TextChatDatasOne(c);
      copies := copies + [c];
      i := i + 1;
    }
    assert cs[i..] == [] && TextChatDatas(copies) + [] == TextChatDatas(copies);
  }

  /** Parses one length-prefixed child in a window of its own. */
  method ParseTextChatData(c: TextChatData, ctx: ParseContext, start: nat) returns (ok: bool, ptr: nat)
    requires ctx.Open(start) && ctx.EndedAtLimit()
    modifies c, ctx
    ensures ctx.limit == old(ctx.limit)
    ensures ok ==> ctx.EndedAtLimit() && start < ptr <= ctx.limit
    ensures match ReadPayload(2, ctx.Window(start))
      case Bad => !ok
      case Got(p, rest) =>
        var o := Parse(TEXT_CHAT_DATA, old(c.Contents()), p.data);
        ok == o.Done? && (ok ==> c.Contents() == o.m && ctx.Window(ptr) == rest)
  {
    hide Parse, Wire.ReadSize;
    var size;
    ok, ptr, size := Library.ReadSize(ctx, start);
    if !ok || size > ctx.limit - ptr { return false, ptr; }
    ghost var rest := ctx.Window(ptr);
    Split(ctx.buffer, ptr, ptr + size, ctx.limit);
    var delta := ctx.PushLimit(ptr, size);
    ok, ptr := c.InternalParse(ctx, ptr);
    var popped := ctx.PopLimit(delta);
    ok := ok && popped;
  }

  /** Adds an empty child, then parses into it. */
  method AddParsedTextChatData(ctx: ParseContext, start: nat, cs: seq<TextChatData>)
    returns (ok: bool, ptr: nat, all: seq<TextChatData>)
    requires ctx.Open(start) && ctx.EndedAtLimit()
    modifies ctx
    ensures ctx.limit == old(ctx.limit)
    ensures forall c | c in all :: c in cs || fresh(c)
    ensures ok ==> ctx.EndedAtLimit() && start < ptr <= ctx.limit
    ensures match ReadPayload(2, ctx.Window(start))
      case Bad => !ok
      case Got(p, rest) =>
        var o := Parse(TEXT_CHAT_DATA, Default(TEXT_CHAT_DATA), p.data);
        && ok == o.Done?
        && (ok ==> TextChatDatas(all) == TextChatDatas(cs) + [o.m] && ctx.Window(ptr) == rest)
  {
    hide Parse, ReadPayload, TextChatDatas;
    var c := new TextChatData();
    all := cs + [c];
    ok, ptr := ParseTextChatData(c, ctx, start);
    TextChatDatasConcat(cs, [c]);
    TextChatDatasOne(c);
  }

  /** The loop over children with the same tag byte, which goes on without the outer dispatch. */
  method ParseTextChatDatas(ctx: ParseContext, start: nat, tag: byte, cs: seq<TextChatData>)
    returns (ok: bool, ptr: nat, all: seq<TextChatData>)
    requires ctx.Open(start) && ctx.EndedAtLimit()
    modifies ctx
    ensures ctx.limit == old(ctx.limit)
    ensures forall c | c in all :: c in cs || fresh(c)
    ensures ok ==> ctx.EndedAtLimit() && start < ptr <= ctx.limit
    ensures match FastRun(TEXT_CHAT_DATA, tag, TextChatDatas(cs), ctx.Window(start))
      case Broke => !ok
      case Ran(items, rest) => ok && TextChatDatas(all) == items && ctx.Window(ptr) == rest
  {
    hide TextChatDatas, Parse, ReadPayload;
    ghost var goal := FastRun(TEXT_CHAT_DATA, tag, TextChatDatas(cs), ctx.Window(start));
    ptr, all := start, cs;
    while true
      invariant ctx.Open(ptr) && start <= ptr && ctx.EndedAtLimit() && ctx.limit == old(ctx.limit)
      invariant forall c | c in all :: c in cs || fresh(c)
      invariant FastRun(TEXT_CHAT_DATA, tag, TextChatDatas(all), ctx.Window(ptr)) == goal
      decreases ctx.limit - ptr
    {
      ok, ptr, all := AddParsedTextChatData(ctx, ptr, all);
      if !ok { return; }
      if ptr >= ctx.limit || ctx.buffer[ptr] != tag { return; }
      assert ctx.Window(ptr)[1..] == ctx.Window(ptr + 1);
      ptr := ptr + 1;
    }
  }

  /** A field of children, read on top of the children it holds: the parse it is in the middle of moves on. */
  method NextTextChatDatas(ghost s: Schema, ghost m: Message, num: nat, ctx: ParseContext, start: nat,
                                cs: seq<TextChatData>)
    returns (ok: bool, ptr: nat, all: seq<TextChatData>)
    requires ctx.Open(start) && ctx.EndedAtLimit()
    requires 1 <= num <= |s.fields| == |m.vals| && 8 * num + 2 < 128
    requires s.fields[num - 1] == Repeated(TEXT_CHAT_DATA) && m.vals[num - 1] == ListV(TextChatDatas(cs))
    modifies ctx
    ensures ctx.limit == old(ctx.limit)
    ensures forall c | c in all :: c in cs || fresh(c)
    ensures ok ==> ctx.EndedAtLimit() && start < ptr <= ctx.limit
    ensures ParseField(s, m, 8 * num + 2, old(ctx.Window(start)))
         == if ok then Parse(s, m.(vals := m.vals[num - 1 := ListV(TextChatDatas(all))]), ctx.Window(ptr)) else Failed
  {
    hide TextChatDatas, Parse, ParseField, FastRun;
    FastRunRefines(s, m, num, TEXT_CHAT_DATA, ctx.Window(start));
    ok, ptr, all := ParseTextChatDatas(ctx, start, 8 * num + 2, cs);
  }

  /** Which inputs are a TextChatMsgReq, and what its fields then are, by their records alone. */
  lemma TextChatMsgReqByRecords(b: seq<byte>)
    ensures Parse(TEXT_CHAT_MSG_REQ, Default(TEXT_CHAT_MSG_REQ), b).Done? <==>
      && Records(b).Some?
      && forall r | r in Records(b).value && r.payload.Bytes? && r.num == 4 ::
        && Records(r.payload.data).Some?
        && forall q | q in Records(r.payload.data).value && q.payload.Bytes? && q.num in {1, 3, 4} ::
          ValidUtf8(q.payload.data)
    ensures Parse(TEXT_CHAT_MSG_REQ, Default(TEXT_CHAT_MSG_REQ), b).Done? ==>
      var m, rs := Parse(TEXT_CHAT_MSG_REQ, Default(TEXT_CHAT_MSG_REQ), b).m, Records(b).value;
      && m.vals[0] == IntV(ToInt32(LastNumber(rs, 1, 0)))
      && m.vals[1] == IntV(ToInt32(LastNumber(rs, 2, 0)))
      && m.vals[2] == IntV(ToInt32(LastNumber(rs, 3, 0)))
      && m.vals[3].ListV? && ChildrenLaw(TEXT_CHAT_DATA, m.vals[3].items, AllBytes(rs, 4))
      && m.unknown == Undeclared(rs, {1, 2, 3}, {4})
  {
    hide Parse, ValidUtf8, ToInt32, ToInt64, LastNumber, LastBytes, Undeclared, ChildrenLaw, AllBytes;
    var s := TEXT_CHAT_MSG_REQ;
    MessageByRecords(s, b, {1, 2, 3}, {4});
    if Records(b).Some? {
      var rs := Records(b).value;
      hide Records;
      assert FieldAccepts(s.fields[0], rs, 1);
      assert FieldAccepts(s.fields[1], rs, 2);
      assert FieldAccepts(s.fields[2], rs, 3);
      forall r | r in rs && r.num == 4 && r.payload.Bytes? { TextChatDataByRecords(r.payload.data); }
      assert FieldAccepts(s.fields[3], rs, 4) <==> FieldAccepts(Repeated(TEXT_CHAT_DATA), rs, 4);
    }
    if Parse(s, Default(s), b).Done? {
      var m, rs := Parse(s, Default(s), b).m, Records(b).value;
      assert FieldLaw(s.fields[0], m.vals[0], rs, 1);
      assert FieldLaw(s.fields[1], m.vals[1], rs, 2);
      assert FieldLaw(s.fields[2], m.vals[2], rs, 3);
      assert FieldLaw(s.fields[3], m.vals[3], rs, 4);
    }
  }

  lemma TextChatMsgReqKinds(m: Message)
    requires HasSchema(TEXT_CHAT_MSG_REQ, m)
    ensures |m.vals| == 4
    ensures m.vals[0].IntV? && m.vals[1].IntV? && m.vals[2].IntV?
  {
    var s := TEXT_CHAT_MSG_REQ;
    assert HasKind(s.fields[0], m.vals[0]) && HasKind(s.fields[1], m.vals[1]) && HasKind(s.fields[2], m.vals[2]);
  }

  /** The records the fields before the children are written as, in number order. */
  lemma TextChatMsgReqScalars(m: Message)
    requires HasSchema(TEXT_CHAT_MSG_REQ, m)
    ensures |m.vals| == 4 && m.vals[0].IntV? && m.vals[1].IntV? && m.vals[2].IntV?
    ensures FieldsTo(TEXT_CHAT_MSG_REQ, m, 3, false)
         == IntRecords(1, m.vals[0].i) + IntRecords(2, m.vals[1].i)
          + IntRecords(3, m.vals[2].i)
  {
    var s := TEXT_CHAT_MSG_REQ;
    TextChatMsgReqKinds(m);
    assert FieldsTo(s, m, 0, false) == [];
    hide HasSchema, FieldsTo, FieldRecords, EncodeRecords, Extend64, IntRecords, BoolRecords, TextRecords;
    NextField(s, m, 0, false);
    NextField(s, m, 1, false);
    NextField(s, m, 2, false);
    assert FieldsTo(s, m, 1, false) == IntRecords(1, m.vals[0].i);
  }

  /** What is written when the children remember these sizes. */
  lemma TextChatMsgReqFramedBytes(x: TextChatMsgReq)
    ensures var items, sizes := TextChatDatas(x.textmsgs), TextChatDataSizes(x.textmsgs);
      Written(TEXT_CHAT_MSG_REQ, x.Contents(), TEXT_CHAT_DATA, items, sizes)
      == EncodeRecords(IntRecords(1, x.fromuid) + IntRecords(2, x.touid)
           + IntRecords(3, x.threadId))
       + Framed(4, TEXT_CHAT_DATA, items, sizes)
       + EncodeRecords(x.unknown)
  {
    hide FieldsTo, EncodeRecords, Framed, TextChatDatas, TextChatDataSizes, IntRecords;
    TextChatMsgReqIsTyped(x);
    TextChatMsgReqScalars(x.Contents());
  }

  /** What is written when they remember their own sizes. */
  lemma TextChatMsgReqBytes(x: TextChatMsgReq)
    ensures Encode(TEXT_CHAT_MSG_REQ, x.Contents(), false)
         == EncodeRecords(IntRecords(1, x.fromuid) + IntRecords(2, x.touid)
              + IntRecords(3, x.threadId)
              + TextChatDataRecords(4, x.textmsgs) + x.unknown)
  {
    hide FieldsTo, EncodeRecords, ChildRecords, FieldRecords, TextChatDatas, TextChatDataRecords, IntRecords;
    var m := x.Contents();
    TextChatMsgReqIsTyped(x);
    TextChatMsgReqScalars(m);
    NextField(TEXT_CHAT_MSG_REQ, m, 3, false);
    ListRecords(4, TEXT_CHAT_DATA, m.vals[3]);
    TextChatDatasWritten(4, x.textmsgs);
  }

  /** The request that delivers text messages to a user. */
  class TextChatMsgReq {
    var fromuid: int32
    var touid: int32
    var threadId: int32
    var textmsgs: seq<TextChatData>
    var unknown: seq<Record>
    var cachedSize: int32

    /** The message this object holds; the cached size is no part of it. */
    ghost function Contents(): (m: Message)
      reads `fromuid, `touid, `threadId, `textmsgs, `unknown
      reads textmsgs`uniqueId, textmsgs`msgId, textmsgs`msgcontent
      reads textmsgs`chatTime, textmsgs`unknown
      ensures |m.vals| == 4
    {
      Message([IntV(fromuid), IntV(touid), IntV(threadId), ListV(TextChatDatas(textmsgs))], unknown)
    }

    constructor ()
      ensures Contents() == Default(TEXT_CHAT_MSG_REQ)
      ensures fromuid == 0 && touid == 0 && threadId == 0 && textmsgs == []
      ensures unknown == []
    {
      fromuid := 0;
      touid := 0;
      threadId := 0;
      textmsgs := [];
      unknown, cachedSize := [], 0;
      new;
      assert Contents().vals == Default(TEXT_CHAT_MSG_REQ).vals;
    }

    /** The copy constructor: field by field, with deep copies of the children. */
    constructor Copy(from: TextChatMsgReq)
      ensures Contents() == from.Contents()
      ensures fresh(set c | c in textmsgs)
    {
      var copies := CopyTextChatDatas(from.textmsgs);
      fromuid := from.fromuid;
      touid := from.touid;
      threadId := from.threadId;
      textmsgs := copies;
      unknown, cachedSize := from.unknown, 0;
      new;
      hide TextChatDatas;
    }

    method Clear()
      modifies `fromuid, `touid, `threadId, `textmsgs, `unknown
      ensures Contents() == Default(TEXT_CHAT_MSG_REQ)
      ensures fromuid == 0 && touid == 0 && threadId == 0 && textmsgs == []
      ensures unknown == []
    {
      textmsgs := [];
      fromuid := 0;
      touid := 0;
      threadId := 0;
      unknown := [];
      assert Contents().vals == Default(TEXT_CHAT_MSG_REQ).vals;
    }

    /** The switch over the declared fields. */
    method ParseDeclared(ctx: ParseContext, tag: uint32, start: nat, ghost before: Message, ghost window: seq<byte>)
      returns (known: bool, ok: bool, ptr: nat, ghost m: Message)
      requires ctx.Open(start) && window == ctx.Window(start) && Contents() == before && ctx.EndedAtLimit()
      modifies `fromuid, `touid, `threadId, `textmsgs, ctx
      ensures ctx.limit == old(ctx.limit) && (!known || ok ==> ctx.EndedAtLimit())
      ensures forall c | c in textmsgs :: c in old(textmsgs) || fresh(c)
      ensures Contents() == m
      ensures !known ==> ptr == start && m == before
      ensures !known ==> forall k | 0 <= k < 4 :: tag != FieldTag(TEXT_CHAT_MSG_REQ, k)
      ensures known && ok ==> start < ptr <= ctx.limit
      ensures known ==>
        ParseField(TEXT_CHAT_MSG_REQ, before, tag, window)
        == if ok then Parse(TEXT_CHAT_MSG_REQ, m, ctx.Window(ptr)) else Failed
    {
      hide Parse, ParseField, TagIs, FieldTag, TextChatDatas, FastRun;
      known, m := true, before;
      ghost var items := TextChatDatas(textmsgs);
      if TagIs(tag, 8) {
        ok, ptr, fromuid := NextInt32(TEXT_CHAT_MSG_REQ, before, 1, ctx, start);
        m := before.(vals := before.vals[0 := IntV(fromuid)]);
        UpdateFour(before.vals, IntV(fromuid));
      } else if TagIs(tag, 16) {
        ok, ptr, touid := NextInt32(TEXT_CHAT_MSG_REQ, before, 2, ctx, start);
        m := before.(vals := before.vals[1 := IntV(touid)]);
        UpdateFour(before.vals, IntV(touid));
      } else if TagIs(tag, 24) {
        ok, ptr, threadId := NextInt32(TEXT_CHAT_MSG_REQ, before, 3, ctx, start);
        m := before.(vals := before.vals[2 := IntV(threadId)]);
        UpdateFour(before.vals, IntV(threadId));
      } else if TagIs(tag, 34) {
        ok, ptr, textmsgs := NextTextChatDatas(TEXT_CHAT_MSG_REQ, before, 4, ctx, start, textmsgs);
        items := TextChatDatas(textmsgs);
        m := before.(vals := before.vals[3 := ListV(items)]);
        UpdateFour(before.vals, ListV(items));
      } else {
        TextChatMsgReqTags(tag);
        known, ok, ptr := false, true, start;
      }
      assert TextChatDatas(textmsgs) == items;
      assert Contents() == m;
    }

    /** Parses a window on top of what the object holds. */
    method InternalParse(ctx: ParseContext, start: nat) returns (ok: bool, ptr: nat)
      requires ctx.Open(start) && ctx.EndedAtLimit()
      modifies `fromuid, `touid, `threadId, `textmsgs, `unknown, ctx
      ensures ctx.limit == old(ctx.limit)
      ensures Shows(Parse(TEXT_CHAT_MSG_REQ, old(Contents()), old(ctx.Window(start))), ok, ptr, ctx, Contents())
      ensures forall c | c in textmsgs :: c in old(textmsgs) || fresh(c)
    {
      hide TextChatDatas, Parse, ParseField, IsStopTag, FieldTag;
      ghost var m := Contents();
      ghost var goal := Parse(TEXT_CHAT_MSG_REQ, m, ctx.Window(start));
      ok, ptr := true, start;
      while ptr < ctx.limit
        invariant ok && ctx.Open(ptr) && ctx.EndedAtLimit()
        invariant ctx.limit == old(ctx.limit)
        invariant forall c | c in textmsgs :: c in old(textmsgs) || fresh(c)
        invariant Contents() == m && Parse(TEXT_CHAT_MSG_REQ, m, ctx.Window(ptr)) == goal
        decreases ctx.limit - ptr
      {
        var tag, known;
        ok, ptr, tag := NextTag(TEXT_CHAT_MSG_REQ, m, ctx, ptr);
        if !ok { return; }
        assert Contents() == m;
        known, ok, ptr, m := ParseDeclared(ctx, tag, ptr, m, ctx.Window(ptr));
        if !known {
          if IsStopTag(tag) {
            AtStopTag(TEXT_CHAT_MSG_REQ, m, tag, ctx.Window(ptr));
            ctx.SetLastTag(tag);
            return true, ptr;
          }
          var r;
          ok, ptr, r := NextUnknown(TEXT_CHAT_MSG_REQ, m, tag, ctx, ptr);
          assert Contents() == m;
          unknown, m := unknown + [r], m.(unknown := m.unknown + [r]);
        }
        if !ok { return; }
      }
      AtTheEnd(TEXT_CHAT_MSG_REQ, m, ctx.Window(ptr));
    }

    /** Appends the message, with the sizes the children remember as their length prefixes. */
    method InternalSerialize(target: seq<byte>) returns (out: seq<byte>)
      ensures out == target
        + Written(TEXT_CHAT_MSG_REQ, Contents(), TEXT_CHAT_DATA, TextChatDatas(textmsgs), TextChatDataSizes(textmsgs))
      ensures out == target
        + (EncodeRecords(IntRecords(1, fromuid) + IntRecords(2, touid) + IntRecords(3, threadId))
          + Framed(4, TEXT_CHAT_DATA, TextChatDatas(textmsgs), TextChatDataSizes(textmsgs))
          + EncodeRecords(unknown))
    {
      hide FieldsTo, EncodeRecords, EncodeRecord, Encode, Extend64;
      hide Framed, Written, IntRecords, TextChatDatas, TextChatDataSizes;
      ghost var m := Contents();
      NothingWritten(TEXT_CHAT_MSG_REQ, m, target);
      out := target;
      out := PutInt32(TEXT_CHAT_MSG_REQ, m, target, 1, fromuid, out);
      out := PutInt32(TEXT_CHAT_MSG_REQ, m, target, 2, touid, out);
      out := PutInt32(TEXT_CHAT_MSG_REQ, m, target, 3, threadId, out);
      out := InternalWriteTextChatDatas(4, textmsgs, out);
      if unknown != [] { out := InternalSerializeUnknownFieldsToArray(unknown, out); }
      ghost var items, sizes := TextChatDatas(textmsgs), TextChatDataSizes(textmsgs);
      WrittenInOrder(TEXT_CHAT_MSG_REQ, m, TEXT_CHAT_DATA, items, sizes, target);
      assert out == target + Written(TEXT_CHAT_MSG_REQ, m, TEXT_CHAT_DATA, items, sizes);
      TextChatMsgReqFramedBytes(this);
    }

    /** Computes the serialized size and remembers it, here and in the children. */
    method ByteSizeLong() returns (total: nat)
      modifies `cachedSize, textmsgs`cachedSize
      ensures total == |Encode(TEXT_CHAT_MSG_REQ, Contents(), false)|
      ensures cachedSize == ToCachedSize(total)
      ensures Fresh(TEXT_CHAT_DATA, TextChatDatas(textmsgs), TextChatDataSizes(textmsgs))
    {
      hide TextChatDatas, TextChatDataSizes, CountInt32, ScalarSize, RecordsSize, Encode, ToInt32, ChildrenSize;
      TextChatMsgReqSize(Contents());
      total := TextChatDatasByteSize(textmsgs);
      total := total + CountInt32(fromuid);
      total := total + CountInt32(touid);
      total := total + CountInt32(threadId);
      if unknown != [] { total := ComputeUnknownFieldsSize(unknown, total); }
      cachedSize := ToCachedSize(total);
    }

    /** Takes over the other object's non-default fields, copies of its children and its unknown records. */
    method MergeFrom(from: TextChatMsgReq)
      requires from != this
      modifies `fromuid, `touid, `threadId, `textmsgs, `unknown
      ensures Contents() == Merge(old(Contents()), from.Contents())
      ensures forall c | c in textmsgs :: c in old(textmsgs) || fresh(c)
    {
      hide TextChatDatas, MergeValue, MergeInt32;
      ghost var before, added := Contents(), from.Contents();
      var copies := CopyTextChatDatas(from.textmsgs);
      MergeList(before, added, 3);
      TextChatDatasConcat(textmsgs, copies);
      ghost var items := TextChatDatas(textmsgs + copies);
      unknown := unknown + from.unknown;
      textmsgs := textmsgs + copies;
      fromuid := MergeInt32(fromuid, from.fromuid);
      touid := MergeInt32(touid, from.touid);
      threadId := MergeInt32(threadId, from.threadId);
      assert TextChatDatas(textmsgs) == items;
      assert from.Contents() == added;
      MergeIs(before, added, Contents());
    }

    /** Makes the contents equal; copying from itself changes nothing. */
    method CopyFrom(from: TextChatMsgReq)
      modifies `fromuid, `touid, `threadId, `textmsgs, `unknown
      ensures Contents() == old(from.Contents())
      ensures if from == this then textmsgs == old(textmsgs) else fresh(set c | c in textmsgs)
    {
      hide TextChatDatas;
      if from == this { return; }
      Clear();
      MergeFrom(from);
      TextChatMsgReqIsTyped(from);
      MergeIntoDefault(TEXT_CHAT_MSG_REQ, from.Contents());
    }

    /** The runtime's entry point for reading a whole buffer. */
    method ParseFromBytes(b: seq<byte>) returns (ok: bool)
      modifies `fromuid, `touid, `threadId, `textmsgs, `unknown
      ensures ok == Parse(TEXT_CHAT_MSG_REQ, Default(TEXT_CHAT_MSG_REQ), b).Done?
      ensures ok ==> Contents() == Parse(TEXT_CHAT_MSG_REQ, Default(TEXT_CHAT_MSG_REQ), b).m
      ensures ok <==>
        && Records(b).Some?
        && forall r | r in Records(b).value && r.payload.Bytes? && r.num == 4 ::
          && Records(r.payload.data).Some?
          && forall q | q in Records(r.payload.data).value && q.payload.Bytes? && q.num in {1, 3, 4} ::
            ValidUtf8(q.payload.data)
      ensures ok ==> var rs := Records(b).value;
        && fromuid == ToInt32(LastNumber(rs, 1, 0))
        && touid == ToInt32(LastNumber(rs, 2, 0))
        && threadId == ToInt32(LastNumber(rs, 3, 0))
        && unknown == Undeclared(rs, {1, 2, 3}, {4})
      ensures ok ==> var ds := AllBytes(Records(b).value, 4);
        && |textmsgs| == |ds|
        && forall i | 0 <= i < |ds| :: Records(ds[i]).Some? && textmsgs[i].Holds(Records(ds[i]).value)
    {
      hide Parse, ValidUtf8, Records, LastNumber, LastBytes, Undeclared, ToInt32, ToInt64;
      hide AllBytes, ChildrenLaw, TextChatDatas;
      TextChatMsgReqByRecords(b);
      Clear();
      var ctx := new ParseContext(b);
      assert ctx.Window(0) == b;
      var ptr;
      ok, ptr := InternalParse(ctx, 0);
      ok := ok && ctx.lastTagMinus1 == 0;
      if ok {
        TextChatDatasHold(textmsgs, AllBytes(Records(b).value, 4));
      }
    }

    /** The runtime's entry point for writing: measure first, then write, unless the size does not fit an int. */
    method SerializeToBytes() returns (ok: bool, out: seq<byte>)
      modifies `cachedSize, textmsgs`cachedSize
      ensures ok == (|Encode(TEXT_CHAT_MSG_REQ, Contents(), false)| < POW31)
      ensures ok ==> out == Encode(TEXT_CHAT_MSG_REQ, Contents(), false)
      ensures ok ==> out == EncodeRecords(
        IntRecords(1, fromuid) + IntRecords(2, touid) + IntRecords(3, threadId)
        + TextChatDataRecords(4, textmsgs) + unknown)
    {
      hide Encode, Written, Framed, EncodeRecords, IntRecords, Fresh;
      hide TextChatDataRecords, TextChatDatas, TextChatDataSizes;
      var size := ByteSizeLong();
      if size >= POW31 { return false, []; }
      ok := true;
      out := InternalSerialize([]);
      ghost var items, sizes := TextChatDatas(textmsgs), TextChatDataSizes(textmsgs);
      WrittenExactly(TEXT_CHAT_MSG_REQ, Contents(), TEXT_CHAT_DATA, items, sizes);
      TextChatMsgReqBytes(this);
    }
  }

  /** The fields of an object have the types its schema says. */
  lemma TextChatMsgReqIsTyped(x: TextChatMsgReq)
    ensures HasSchema(TEXT_CHAT_MSG_REQ, x.Contents())
  {
    TextChatDatasAreTyped(x.textmsgs);
  }

  /** Any other tag belongs to no field of the class. */
  lemma TextChatMsgReqTags(tag: uint32)
    requires tag !in {8, 16, 24, 34}
    ensures forall k | 0 <= k < 4 :: tag != FieldTag(TEXT_CHAT_MSG_REQ, k)
  {}

  /** The size of a message is the sum over its fields. */
  lemma TextChatMsgReqSize(m: Message)
    requires |m.vals| == 4 && forall k | 0 <= k < 4 :: (m.vals[k].ListV? <==> k == 3)
    ensures |Encode(TEXT_CHAT_MSG_REQ, m, false)|
         == ScalarSize(m.vals[0]) + ScalarSize(m.vals[1]) + ScalarSize(m.vals[2])
          + |m.vals[3].items| + ChildrenSize(TEXT_CHAT_DATA, m.vals[3].items)
          + RecordsSize(m.unknown)
    ensures m.unknown == [] ==> RecordsSize(m.unknown) == 0
  {
    hide FieldsSize, Encode, ScalarSize, RecordsSize, ChildrenSize;
    SizeCounted(TEXT_CHAT_MSG_REQ, m);
    FieldCounted(TEXT_CHAT_MSG_REQ, m, 0);
    FieldCounted(TEXT_CHAT_MSG_REQ, m, 1);
    FieldCounted(TEXT_CHAT_MSG_REQ, m, 2);
    ListCounted(TEXT_CHAT_MSG_REQ, m, 3, TEXT_CHAT_DATA);
  }

  /** Which inputs are a TextChatMsgRsp, and what its fields then are, by their records alone. */
  lemma TextChatMsgRspByRecords(b: seq<byte>)
    ensures Parse(TEXT_CHAT_MSG_RSP, Default(TEXT_CHAT_MSG_RSP), b).Done? <==>
      && Records(b).Some?
      && forall r | r in Records(b).value && r.payload.Bytes? && r.num == 5 ::
        && Records(r.payload.data).Some?
        && forall q | q in Records(r.payload.data).value && q.payload.Bytes? && q.num in {1, 3, 4} ::
          ValidUtf8(q.payload.data)
    ensures Parse(TEXT_CHAT_MSG_RSP, Default(TEXT_CHAT_MSG_RSP), b).Done? ==>
      var m, rs := Parse(TEXT_CHAT_MSG_RSP, Default(TEXT_CHAT_MSG_RSP), b).m, Records(b).value;
      && m.vals[0] == IntV(ToInt32(LastNumber(rs, 1, 0)))
      && m.vals[1] == IntV(ToInt32(LastNumber(rs, 2, 0)))
      && m.vals[2] == IntV(ToInt32(LastNumber(rs, 3, 0)))
      && m.vals[3] == IntV(ToInt32(LastNumber(rs, 4, 0)))
      && m.vals[4].ListV? && ChildrenLaw(TEXT_CHAT_DATA, m.vals[4].items, AllBytes(rs, 5))
      && m.unknown == Undeclared(rs, {1, 2, 3, 4}, {5})
  {
    hide Parse, ValidUtf8, ToInt32, ToInt64, LastNumber, LastBytes, Undeclared, ChildrenLaw, AllBytes;
    var s := TEXT_CHAT_MSG_RSP;
    MessageByRecords(s, b, {1, 2, 3, 4}, {5});
    if Records(b).Some? {
      var rs := Records(b).value;
      hide Records;
      assert FieldAccepts(s.fields[0], rs, 1);
      assert FieldAccepts(s.fields[1], rs, 2);
      assert FieldAccepts(s.fields[2], rs, 3);
      assert FieldAccepts(s.fields[3], rs, 4);
      forall r | r in rs && r.num == 5 && r.payload.Bytes? { TextChatDataByRecords(r.payload.data); }
      assert FieldAccepts(s.fields[4], rs, 5) <==> FieldAccepts(Repeated(TEXT_CHAT_DATA), rs, 5);
    }
    if Parse(s, Default(s), b).Done? {
      var m, rs := Parse(s, Default(s), b).m, Records(b).value;
      assert FieldLaw(s.fields[0], m.vals[0], rs, 1);
      assert FieldLaw(s.fields[1], m.vals[1], rs, 2);
      assert FieldLaw(s.fields[2], m.vals[2], rs, 3);
      assert FieldLaw(s.fields[3], m.vals[3], rs, 4);
      assert FieldLaw(s.fields[4], m.vals[4], rs, 5);
    }
  }

  lemma TextChatMsgRspKinds(m: Message)
    requires HasSchema(TEXT_CHAT_MSG_RSP, m)
    ensures |m.vals| == 5
    ensures m.vals[0].IntV? && m.vals[1].IntV? && m.vals[2].IntV? && m.vals[3].IntV?
  {
    var s := TEXT_CHAT_MSG_RSP;
    assert HasKind(s.fields[0], m.vals[0]) && HasKind(s.fields[1], m.vals[1]) && HasKind(s.fields[2], m.vals[2]);
    assert HasKind(s.fields[3], m.vals[3]);
  }

  /** The records the fields before the children are written as, in number order. */
  lemma TextChatMsgRspScalars(m: Message)
    requires HasSchema(TEXT_CHAT_MSG_RSP, m)
    ensures |m.vals| == 5 && m.vals[0].IntV? && m.vals[1].IntV? && m.vals[2].IntV? && m.vals[3].IntV?
    ensures FieldsTo(TEXT_CHAT_MSG_RSP, m, 4, false)
         == IntRecords(1, m.vals[0].i) + IntRecords(2, m.vals[1].i)
          + IntRecords(3, m.vals[2].i) + IntRecords(4, m.vals[3].i)
  {
    var s := TEXT_CHAT_MSG_RSP;
    TextChatMsgRspKinds(m);
    assert FieldsTo(s, m, 0, false) == [];
    hide HasSchema, FieldsTo, FieldRecords, EncodeRecords, Extend64, IntRecords, BoolRecords, TextRecords;
    NextField(s, m, 0, false);
    NextField(s, m, 1, false);
    NextField(s, m, 2, false);
    NextField(s, m, 3, false);
    assert FieldsTo(s, m, 1, false) == IntRecords(1, m.vals[0].i);
  }

  /** What is written when the children remember these sizes. */
  lemma TextChatMsgRspFramedBytes(x: TextChatMsgRsp)
    ensures var items, sizes := TextChatDatas(x.textmsgs), TextChatDataSizes(x.textmsgs);
      Written(TEXT_CHAT_MSG_RSP, x.Contents(), TEXT_CHAT_DATA, items, sizes)
      == EncodeRecords(IntRecords(1, x.error) + IntRecords(2, x.fromuid)
           + IntRecords(3, x.touid) + IntRecords(4, x.threadId))
       + Framed(5, TEXT_CHAT_DATA, items, sizes)
       + EncodeRecords(x.unknown)
  {
    hide FieldsTo, EncodeRecords, Framed, TextChatDatas, TextChatDataSizes, IntRecords;
    TextChatMsgRspIsTyped(x);
    TextChatMsgRspScalars(x.Contents());
  }

  /** What is written when they remember their own sizes. */
  lemma TextChatMsgRspBytes(x: TextChatMsgRsp)
    ensures Encode(TEXT_CHAT_MSG_RSP, x.Contents(), false)
         == EncodeRecords(IntRecords(1, x.error) + IntRecords(2, x.fromuid)
              + IntRecords(3, x.touid) + IntRecords(4, x.threadId)
              + TextChatDataRecords(5, x.textmsgs) + x.unknown)
  {
    hide FieldsTo, EncodeRecords, ChildRecords, FieldRecords, TextChatDatas, TextChatDataRecords, IntRecords;
    var m := x.Contents();
    TextChatMsgRspIsTyped(x);
    TextChatMsgRspScalars(m);
    NextField(TEXT_CHAT_MSG_RSP, m, 4, false);
    ListRecords(5, TEXT_CHAT_DATA, m.vals[4]);
    TextChatDatasWritten(5, x.textmsgs);
  }

  /** The response to a TextChatMsgReq, which repeats its messages. */
  class TextChatMsgRsp {
    var error: int32
    var fromuid: int32
    var touid: int32
    var threadId: int32
    var textmsgs: seq<TextChatData>
    var unknown: seq<Record>
    var cachedSize: int32

    /** The message this object holds; the cached size is no part of it. */
    ghost function Contents(): (m: Message)
      reads `error, `fromuid, `touid, `threadId, `textmsgs, `unknown
      reads textmsgs`uniqueId, textmsgs`msgId, textmsgs`msgcontent
      reads textmsgs`chatTime, textmsgs`unknown
      ensures |m.vals| == 5
    {
      Message([IntV(error), IntV(fromuid), IntV(touid), IntV(threadId), ListV(TextChatDatas(textmsgs))], unknown)
    }

    constructor ()
      ensures Contents() == Default(TEXT_CHAT_MSG_RSP)
      ensures error == 0 && fromuid == 0 && touid == 0 && threadId == 0
      ensures textmsgs == [] && unknown == []
    {
      error := 0;
      fromuid := 0;
      touid := 0;
      threadId := 0;
      textmsgs := [];
      unknown, cachedSize := [], 0;
      new;
      assert Contents().vals == Default(TEXT_CHAT_MSG_RSP).vals;
    }

    /** The copy constructor: field by field, with deep copies of the children. */
    constructor Copy(from: TextChatMsgRsp)
      ensures Contents() == from.Contents()
      ensures fresh(set c | c in textmsgs)
    {
      var copies := CopyTextChatDatas(from.textmsgs);
      error := from.error;
      fromuid := from.fromuid;
      touid := from.touid;
      threadId := from.threadId;
      textmsgs := copies;
      unknown, cachedSize := from.unknown, 0;
      new;
      hide TextChatDatas;
    }

    method Clear()
      modifies `error, `fromuid, `touid, `threadId, `textmsgs, `unknown
      ensures Contents() == Default(TEXT_CHAT_MSG_RSP)
      ensures error == 0 && fromuid == 0 && touid == 0 && threadId == 0
      ensures textmsgs == [] && unknown == []
    {
      textmsgs := [];
      error := 0;
      fromuid := 0;
      touid := 0;
      threadId := 0;
      unknown := [];
      assert Contents().vals == Default(TEXT_CHAT_MSG_RSP).vals;
    }

    /** The switch over the declared fields. */
    method ParseDeclared(ctx: ParseContext, tag: uint32, start: nat, ghost before: Message, ghost window: seq<byte>)
      returns (known: bool, ok: bool, ptr: nat, ghost m: Message)
      requires ctx.Open(start) && window == ctx.Window(start) && Contents() == before && ctx.EndedAtLimit()
      modifies `error, `fromuid, `touid, `threadId, `textmsgs, ctx
      ensures ctx.limit == old(ctx.limit) && (!known || ok ==> ctx.EndedAtLimit())
      ensures forall c | c in textmsgs :: c in old(textmsgs) || fresh(c)
      ensures Contents() == m
      ensures !known ==> ptr == start && m == before
      ensures !known ==> forall k | 0 <= k < 5 :: tag != FieldTag(TEXT_CHAT_MSG_RSP, k)
      ensures known && ok ==> start < ptr <= ctx.limit
      ensures known ==>
        ParseField(TEXT_CHAT_MSG_RSP, before, tag, window)
        == if ok then Parse(TEXT_CHAT_MSG_RSP, m, ctx.Window(ptr)) else Failed
    {
      hide Parse, ParseField, TagIs, FieldTag, TextChatDatas, FastRun;
      known, m := true, before;
      ghost var items := TextChatDatas(textmsgs);
      if TagIs(tag, 8) {
        ok, ptr, error := NextInt32(TEXT_CHAT_MSG_RSP, before, 1, ctx, start);
        m := before.(vals := before.vals[0 := IntV(error)]);
        UpdateFive(before.vals, IntV(error));
      } else if TagIs(tag, 16) {
        ok, ptr, fromuid := NextInt32(TEXT_CHAT_MSG_RSP, before, 2, ctx, start);
        m := before.(vals := before.vals[1 := IntV(fromuid)]);
        UpdateFive(before.vals, IntV(fromuid));
      } else if TagIs(tag, 24) {
        ok, ptr, touid := NextInt32(TEXT_CHAT_MSG_RSP, before, 3, ctx, start);
        m := before.(vals := before.vals[2 := IntV(touid)]);
        UpdateFive(before.vals, IntV(touid));
      } else if TagIs(tag, 32) {
        ok, ptr, threadId := NextInt32(TEXT_CHAT_MSG_RSP, before, 4, ctx, start);
        m := before.(vals := before.vals[3 := IntV(threadId)]);
        UpdateFive(before.vals, IntV(threadId));
      } else if TagIs(tag, 42) {
        ok, ptr, textmsgs := NextTextChatDatas(TEXT_CHAT_MSG_RSP, before, 5, ctx, start, textmsgs);
        items := TextChatDatas(textmsgs);
        m := before.(vals := before.vals[4 := ListV(items)]);
        UpdateFive(before.vals, ListV(items));
      } else {
        TextChatMsgRspTags(tag);
        known, ok, ptr := false, true, start;
      }
      assert TextChatDatas(textmsgs) == items;
      assert Contents() == m;
    }

    /** Parses a window on top of what the object holds. */
    method InternalParse(ctx: ParseContext, start: nat) returns (ok: bool, ptr: nat)
      requires ctx.Open(start) && ctx.EndedAtLimit()
      modifies `error, `fromuid, `touid, `threadId, `textmsgs, `unknown, ctx
      ensures ctx.limit == old(ctx.limit)
      ensures Shows(Parse(TEXT_CHAT_MSG_RSP, old(Contents()), old(ctx.Window(start))), ok, ptr, ctx, Contents())
      ensures forall c | c in textmsgs :: c in old(textmsgs) || fresh(c)
    {
      hide TextChatDatas, Parse, ParseField, IsStopTag, FieldTag;
      ghost var m := Contents();
      ghost var goal := Parse(TEXT_CHAT_MSG_RSP, m, ctx.Window(start));
      ok, ptr := true, start;
      while ptr < ctx.limit
        invariant ok && ctx.Open(ptr) && ctx.EndedAtLimit()
        invariant ctx.limit == old(ctx.limit)
        invariant forall c | c in textmsgs :: c in old(textmsgs) || fresh(c)
        invariant Contents() == m && Parse(TEXT_CHAT_MSG_RSP, m, ctx.Window(ptr)) == goal
        decreases ctx.limit - ptr
      {
        var tag, known;
        ok, ptr, tag := NextTag(TEXT_CHAT_MSG_RSP, m, ctx, ptr);
        if !ok { return; }
        assert Contents() == m;
        known, ok, ptr, m := ParseDeclared(ctx, tag, ptr, m, ctx.Window(ptr));
        if !known {
          if IsStopTag(tag) {
            AtStopTag(TEXT_CHAT_MSG_RSP, m, tag, ctx.Window(ptr));
            ctx.SetLastTag(tag);
            return true, ptr;
          }
          var r;
          ok, ptr, r := NextUnknown(TEXT_CHAT_MSG_RSP, m, tag, ctx, ptr);
          assert Contents() == m;
          unknown, m := unknown + [r], m.(unknown := m.unknown + [r]);
        }
        if !ok { return; }
      }
      AtTheEnd(TEXT_CHAT_MSG_RSP, m, ctx.Window(ptr));
    }

    /** Appends the message, with the sizes the children remember as their length prefixes. */
    method InternalSerialize(target: seq<byte>) returns (out: seq<byte>)
      ensures out == target
        + Written(TEXT_CHAT_MSG_RSP, Contents(), TEXT_CHAT_DATA, TextChatDatas(textmsgs), TextChatDataSizes(textmsgs))
      ensures out == target
        + (EncodeRecords(IntRecords(1, error) + IntRecords(2, fromuid) + IntRecords(3, touid)
            + IntRecords(4, threadId))
          + Framed(5, TEXT_CHAT_DATA, TextChatDatas(textmsgs), TextChatDataSizes(textmsgs))
          + EncodeRecords(unknown))
    {
      hide FieldsTo, EncodeRecords, EncodeRecord, Encode, Extend64;
      hide Framed, Written, IntRecords, TextChatDatas, TextChatDataSizes;
      ghost var m := Contents();
      NothingWritten(TEXT_CHAT_MSG_RSP, m, target);
      out := target;
      out := PutInt32(TEXT_CHAT_MSG_RSP, m, target, 1, error, out);
      out := PutInt32(TEXT_CHAT_MSG_RSP, m, target, 2, fromuid, out);
      out := PutInt32(TEXT_CHAT_MSG_RSP, m, target, 3, touid, out);
      out := PutInt32(TEXT_CHAT_MSG_RSP, m, target, 4, threadId, out);
      out := InternalWriteTextChatDatas(5, textmsgs, out);
      if unknown != [] { out := InternalSerializeUnknownFieldsToArray(unknown, out); }
      ghost var items, sizes := TextChatDatas(textmsgs), TextChatDataSizes(textmsgs);
      WrittenInOrder(TEXT_CHAT_MSG_RSP, m, TEXT_CHAT_DATA, items, sizes, target);
      assert out == target + Written(TEXT_CHAT_MSG_RSP, m, TEXT_CHAT_DATA, items, sizes);
      TextChatMsgRspFramedBytes(this);
    }

    /** Computes the serialized size and remembers it, here and in the children. */
    method ByteSizeLong() returns (total: nat)
      modifies `cachedSize, textmsgs`cachedSize
      ensures total == |Encode(TEXT_CHAT_MSG_RSP, Contents(), false)|
      ensures cachedSize == ToCachedSize(total)
      ensures Fresh(TEXT_CHAT_DATA, TextChatDatas(textmsgs), TextChatDataSizes(textmsgs))
    {
      hide TextChatDatas, TextChatDataSizes, CountInt32, ScalarSize, RecordsSize, Encode, ToInt32, ChildrenSize;
      TextChatMsgRspSize(Contents());
      total := TextChatDatasByteSize(textmsgs);
      total := total + CountInt32(error);
      total := total + CountInt32(fromuid);
      total := total + CountInt32(touid);
      total := total + CountInt32(threadId);
      if unknown != [] { total := ComputeUnknownFieldsSize(unknown, total); }
      cachedSize := ToCachedSize(total);
    }

    /** Takes over the other object's non-default fields, copies of its children and its unknown records. */
    method MergeFrom(from: TextChatMsgRsp)
      requires from != this
      modifies `error, `fromuid, `touid, `threadId, `textmsgs, `unknown
      ensures Contents() == Merge(old(Contents()), from.Contents())
      ensures forall c | c in textmsgs :: c in old(textmsgs) || fresh(c)
    {
      hide TextChatDatas, MergeValue, MergeInt32;
      ghost var before, added := Contents(), from.Contents();
      var copies := CopyTextChatDatas(from.textmsgs);
      MergeList(before, added, 4);
      TextChatDatasConcat(textmsgs, copies);
      ghost var items := TextChatDatas(textmsgs + copies);
      unknown := unknown + from.unknown;
      textmsgs := textmsgs + copies;
      error := MergeInt32(error, from.error);
      fromuid := MergeInt32(fromuid, from.fromuid);
      touid := MergeInt32(touid, from.touid);
      threadId := MergeInt32(threadId, from.threadId);
      assert TextChatDatas(textmsgs) == items;
      assert from.Contents() == added;
      MergeIs(before, added, Contents());
    }

    /** Makes the contents equal; copying from itself changes nothing. */
    method CopyFrom(from: TextChatMsgRsp)
      modifies `error, `fromuid, `touid, `threadId, `textmsgs, `unknown
      ensures Contents() == old(from.Contents())
      ensures if from == this then textmsgs == old(textmsgs) else fresh(set c | c in textmsgs)
    {
      hide TextChatDatas;
      if from == this { return; }
      Clear();
      MergeFrom(from);
      TextChatMsgRspIsTyped(from);
      MergeIntoDefault(TEXT_CHAT_MSG_RSP, from.Contents());
    }

    /** The runtime's entry point for reading a whole buffer. */
    method ParseFromBytes(b: seq<byte>) returns (ok: bool)
      modifies `error, `fromuid, `touid, `threadId, `textmsgs, `unknown
      ensures ok == Parse(TEXT_CHAT_MSG_RSP, Default(TEXT_CHAT_MSG_RSP), b).Done?
      ensures ok ==> Contents() == Parse(TEXT_CHAT_MSG_RSP, Default(TEXT_CHAT_MSG_RSP), b).m
      ensures ok <==>
        && Records(b).Some?
        && forall r | r in Records(b).value && r.payload.Bytes? && r.num == 5 ::
          && Records(r.payload.data).Some?
          && forall q | q in Records(r.payload.data).value && q.payload.Bytes? && q.num in {1, 3, 4} ::
            ValidUtf8(q.payload.data)
      ensures ok ==> var rs := Records(b).value;
        && error == ToInt32(LastNumber(rs, 1, 0))
        && fromuid == ToInt32(LastNumber(rs, 2, 0))
        && touid == ToInt32(LastNumber(rs, 3, 0))
        && threadId == ToInt32(LastNumber(rs, 4, 0))
        && unknown == Undeclared(rs, {1, 2, 3, 4}, {5})
      ensures ok ==> var ds := AllBytes(Records(b).value, 5);
        && |textmsgs| == |ds|
        && forall i | 0 <= i < |ds| :: Records(ds[i]).Some? && textmsgs[i].Holds(Records(ds[i]).value)
    {
      hide Parse, ValidUtf8, Records, LastNumber, LastBytes, Undeclared, ToInt32, ToInt64;
      hide AllBytes, ChildrenLaw, TextChatDatas;
      TextChatMsgRspByRecords(b);
      Clear();
      var ctx := new ParseContext(b);
      assert ctx.Window(0) == b;
      var ptr;
      ok, ptr := InternalParse(ctx, 0);
      ok := ok && ctx.lastTagMinus1 == 0;
      if ok {
        TextChatDatasHold(textmsgs, AllBytes(Records(b).value, 5));
      }
    }

    /** The runtime's entry point for writing: measure first, then write, unless the size does not fit an int. */
    method SerializeToBytes() returns (ok: bool, out: seq<byte>)
      modifies `cachedSize, textmsgs`cachedSize
      ensures ok == (|Encode(TEXT_CHAT_MSG_RSP, Contents(), false)| < POW31)
      ensures ok ==> out == Encode(TEXT_CHAT_MSG_RSP, Contents(), false)
      ensures ok ==> out == EncodeRecords(
        IntRecords(1, error) + IntRecords(2, fromuid) + IntRecords(3, touid)
        + IntRecords(4, threadId) + TextChatDataRecords(5, textmsgs) + unknown)
    {
      hide Encode, Written, Framed, EncodeRecords, IntRecords, Fresh;
      hide TextChatDataRecords, TextChatDatas, TextChatDataSizes;
      var size := ByteSizeLong();
      if size >= POW31 { return false, []; }
      ok := true;
      out := InternalSerialize([]);
      ghost var items, sizes := TextChatDatas(textmsgs), TextChatDataSizes(textmsgs);
      WrittenExactly(TEXT_CHAT_MSG_RSP, Contents(), TEXT_CHAT_DATA, items, sizes);
      TextChatMsgRspBytes(this);
    }
  }

  /** The fields of an object have the types its schema says. */
  lemma TextChatMsgRspIsTyped(x: TextChatMsgRsp)
    ensures HasSchema(TEXT_CHAT_MSG_RSP, x.Contents())
  {
    TextChatDatasAreTyped(x.textmsgs);
  }

  /** Any other tag belongs to no field of the class. */
  lemma TextChatMsgRspTags(tag: uint32)
    requires tag !in {8, 16, 24, 32, 42}
    ensures forall k | 0 <= k < 5 :: tag != FieldTag(TEXT_CHAT_MSG_RSP, k)
  {}

  /** The size of a message is the sum over its fields. */
  lemma TextChatMsgRspSize(m: Message)
    requires |m.vals| == 5 && forall k | 0 <= k < 5 :: (m.vals[k].ListV? <==> k == 4)
    ensures |Encode(TEXT_CHAT_MSG_RSP, m, false)|
         == ScalarSize(m.vals[0]) + ScalarSize(m.vals[1]) + ScalarSize(m.vals[2])
          + ScalarSize(m.vals[3])
          + |m.vals[4].items| + ChildrenSize(TEXT_CHAT_DATA, m.vals[4].items)
          + RecordsSize(m.unknown)
    ensures m.unknown == [] ==> RecordsSize(m.unknown) == 0
  {
    hide FieldsSize, Encode, ScalarSize, RecordsSize, ChildrenSize;
    SizeCounted(TEXT_CHAT_MSG_RSP, m);
    FieldCounted(TEXT_CHAT_MSG_RSP, m, 0);
    FieldCounted(TEXT_CHAT_MSG_RSP, m, 1);
    FieldCounted(TEXT_CHAT_MSG_RSP, m, 2);
    FieldCounted(TEXT_CHAT_MSG_RSP, m, 3);
    ListCounted(TEXT_CHAT_MSG_RSP, m, 4, TEXT_CHAT_DATA);
  }
}
