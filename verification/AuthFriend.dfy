/**
 The friend-confirmation request and the chat messages it carries.
 */
module AuthFriend {
  import opened Wire
  import opened Utf8
  import opened Codec
  import opened RoundTrip
  import opened Bounds
  import opened Schemas
  import opened Library
  import opened Framing
  import opened ParseSteps
  import opened WriteSteps
  import opened RecordLaws

  /** Which inputs are an AddFriendMsg, and what its fields then are, by their records alone. */
  lemma AddFriendMsgByRecords(b: seq<byte>)
    ensures Parse(ADD_FRIEND_MSG, Default(ADD_FRIEND_MSG), b).Done? <==>
      && Records(b).Some?
      && forall r | r in Records(b).value && r.payload.Bytes? && r.num in {2, 5} ::
        ValidUtf8(r.payload.data)
    ensures Parse(ADD_FRIEND_MSG, Default(ADD_FRIEND_MSG), b).Done? ==>
      var m, rs := Parse(ADD_FRIEND_MSG, Default(ADD_FRIEND_MSG), b).m, Records(b).value;
      && m.vals[0] == IntV(ToInt32(LastNumber(rs, 1, 0)))
      && m.vals[1] == TextV(LastBytes(rs, 2, []))
      && m.vals[2] == IntV(ToInt32(LastNumber(rs, 3, 0)))
      && m.vals[3] == IntV(ToInt32(LastNumber(rs, 4, 0)))
      && m.vals[4] == TextV(LastBytes(rs, 5, []))
      && m.vals[5] == IntV(ToInt32(LastNumber(rs, 6, 0)))
      && m.unknown == Undeclared(rs, {1, 3, 4, 6}, {2, 5})
  {
    hide Parse, ValidUtf8, ToInt32, ToInt64, LastNumber, LastBytes, Undeclared;
    var s := ADD_FRIEND_MSG;
    MessageByRecords(s, b, {1, 3, 4, 6}, {2, 5});
    if Records(b).Some? {
      var rs := Records(b).value;
      hide Records;
      assert FieldAccepts(s.fields[0], rs, 1);
      assert FieldAccepts(s.fields[1], rs, 2) <==> FieldAccepts(Text, rs, 2);
      assert FieldAccepts(s.fields[2], rs, 3);
      assert FieldAccepts(s.fields[3], rs, 4);
      assert FieldAccepts(s.fields[4], rs, 5) <==> FieldAccepts(Text, rs, 5);
      assert FieldAccepts(s.fields[5], rs, 6);
    }
    if Parse(s, Default(s), b).Done? {
      var m, rs := Parse(s, Default(s), b).m, Records(b).value;
      assert FieldLaw(s.fields[0], m.vals[0], rs, 1);
      assert FieldLaw(s.fields[1], m.vals[1], rs, 2);
      assert FieldLaw(s.fields[2], m.vals[2], rs, 3);
      assert FieldLaw(s.fields[3], m.vals[3], rs, 4);
      assert FieldLaw(s.fields[4], m.vals[4], rs, 5);
      assert FieldLaw(s.fields[5], m.vals[5], rs, 6);
    }
  }

  lemma AddFriendMsgKinds(m: Message)
    requires HasSchema(ADD_FRIEND_MSG, m)
    ensures |m.vals| == 6
    ensures m.vals[0].IntV? && m.vals[1].TextV? && m.vals[2].IntV? && m.vals[3].IntV?
    ensures m.vals[4].TextV? && m.vals[5].IntV?
  {
    var s := ADD_FRIEND_MSG;
    assert HasKind(s.fields[0], m.vals[0]) && HasKind(s.fields[1], m.vals[1]) && HasKind(s.fields[2], m.vals[2]);
    assert HasKind(s.fields[3], m.vals[3]) && HasKind(s.fields[4], m.vals[4]) && HasKind(s.fields[5], m.vals[5]);
  }

  /** The records the fields are written as, in number order. */
  lemma AddFriendMsgWritten(m: Message)
    requires HasSchema(ADD_FRIEND_MSG, m)
    ensures |m.vals| == 6
    ensures m.vals[0].IntV? && m.vals[1].TextV? && m.vals[2].IntV? && m.vals[3].IntV?
    ensures m.vals[4].TextV? && m.vals[5].IntV?
    ensures Encode(ADD_FRIEND_MSG, m, false)
         == EncodeRecords(IntRecords(1, m.vals[0].i) + TextRecords(2, m.vals[1].s)
              + IntRecords(3, m.vals[2].i) + IntRecords(4, m.vals[3].i)
              + TextRecords(5, m.vals[4].s) + IntRecords(6, m.vals[5].i) + m.unknown)
  {
    var s := ADD_FRIEND_MSG;
    AddFriendMsgKinds(m);
    assert FieldsTo(s, m, 0, false) == [];
    hide HasSchema, FieldsTo, FieldRecords, EncodeRecords, Extend64, IntRecords, BoolRecords, TextRecords;
    NextField(s, m, 0, false);
    NextField(s, m, 1, false);
    NextField(s, m, 2, false);
    NextField(s, m, 3, false);
    NextField(s, m, 4, false);
    NextField(s, m, 5, false);
    assert FieldsTo(s, m, 1, false) == IntRecords(1, m.vals[0].i);
  }

  /** A chat message that goes with a friend confirmation. */
  class AddFriendMsg {
    var senderId: int32
    var uniqueId: seq<byte>
    var msgId: int32
    var threadId: int32
    var msgcontent: seq<byte>
    var status: int32
    var unknown: seq<Record>
    var cachedSize: int32

    /** The message this object holds; the cached size is no part of it. */
    ghost function Contents(): (m: Message)
      reads `senderId, `uniqueId, `msgId, `threadId, `msgcontent, `status, `unknown
      ensures |m.vals| == 6
    {
      Message([IntV(senderId), TextV(uniqueId), IntV(msgId), IntV(threadId), TextV(msgcontent), IntV(status)], unknown)
    }

    /** The fields hold what these records say, read on top of nothing. */
    ghost predicate Holds(rs: seq<Record>)
      reads `senderId, `uniqueId, `msgId, `threadId, `msgcontent, `status, `unknown
    {
      && senderId == ToInt32(LastNumber(rs, 1, 0))
      && uniqueId == LastBytes(rs, 2, [])
      && msgId == ToInt32(LastNumber(rs, 3, 0))
      && threadId == ToInt32(LastNumber(rs, 4, 0))
      && msgcontent == LastBytes(rs, 5, [])
      && status == ToInt32(LastNumber(rs, 6, 0))
      && unknown == Undeclared(rs, {1, 3, 4, 6}, {2, 5})
    }

    constructor ()
      ensures Contents() == Default(ADD_FRIEND_MSG)
      ensures senderId == 0 && uniqueId == [] && msgId == 0 && threadId == 0
      ensures msgcontent == [] && status == 0 && unknown == []
    {
      senderId := 0;
      uniqueId := [];
      msgId := 0;
      threadId := 0;
      msgcontent := [];
      status := 0;
      unknown, cachedSize := [], 0;
      new;
      assert Contents().vals == Default(ADD_FRIEND_MSG).vals;
    }

    /** The copy constructor: field by field. */
    constructor Copy(from: AddFriendMsg)
      ensures Contents() == from.Contents()
    {
      senderId := from.senderId;
      uniqueId := from.uniqueId;
      msgId := from.msgId;
      threadId := from.threadId;
      msgcontent := from.msgcontent;
      status := from.status;
      unknown, cachedSize := from.unknown, 0;
    }

    method Clear()
      modifies `senderId, `uniqueId, `msgId, `threadId, `msgcontent, `status, `unknown
      ensures Contents() == Default(ADD_FRIEND_MSG)
      ensures senderId == 0 && uniqueId == [] && msgId == 0 && threadId == 0
      ensures msgcontent == [] && status == 0 && unknown == []
    {
      uniqueId := [];
      msgcontent := [];
      senderId := 0;
      msgId := 0;
      threadId := 0;
      status := 0;
      unknown := [];
      assert Contents().vals == Default(ADD_FRIEND_MSG).vals;
    }

    /** The switch over the declared fields. */
    method ParseDeclared(ctx: ParseContext, tag: uint32, start: nat, ghost before: Message, ghost window: seq<byte>)
      returns (known: bool, ok: bool, ptr: nat, ghost m: Message)
      requires ctx.Open(start) && window == ctx.Window(start) && Contents() == before
      modifies `senderId, `uniqueId, `msgId, `threadId, `msgcontent, `status
      ensures Contents() == m
      ensures !known ==> ptr == start && m == before
      ensures !known ==> forall k | 0 <= k < 6 :: tag != FieldTag(ADD_FRIEND_MSG, k)
      ensures known && ok ==> start < ptr <= ctx.limit
      ensures known ==>
        ParseField(ADD_FRIEND_MSG, before, tag, window)
        == if ok then Parse(ADD_FRIEND_MSG, m, ctx.Window(ptr)) else Failed
    {
      hide Parse, ParseField, TagIs, FieldTag;
      known, m := true, before;
      if TagIs(tag, 8) {
        ok, ptr, senderId := NextInt32(ADD_FRIEND_MSG, before, 1, ctx, start);
        m := before.(vals := before.vals[0 := IntV(senderId)]);
        UpdateSix(before.vals, IntV(senderId));
      } else if TagIs(tag, 18) {
        ok, ptr, uniqueId := NextText(ADD_FRIEND_MSG, before, 2, ctx, start);
        m := before.(vals := before.vals[1 := TextV(uniqueId)]);
        UpdateSix(before.vals, TextV(uniqueId));
      } else if TagIs(tag, 24) {
        ok, ptr, msgId := NextInt32(ADD_FRIEND_MSG, before, 3, ctx, start);
        m := before.(vals := before.vals[2 := IntV(msgId)]);
        UpdateSix(before.vals, IntV(msgId));
      } else if TagIs(tag, 32) {
        ok, ptr, threadId := NextInt32(ADD_FRIEND_MSG, before, 4, ctx, start);
        m := before.(vals := before.vals[3 := IntV(threadId)]);
        UpdateSix(before.vals, IntV(threadId));
      } else if TagIs(tag, 42) {
        ok, ptr, msgcontent := NextText(ADD_FRIEND_MSG, before, 5, ctx, start);
        m := before.(vals := before.vals[4 := TextV(msgcontent)]);
        UpdateSix(before.vals, TextV(msgcontent));
      } else if TagIs(tag, 48) {
        ok, ptr, status := NextInt32(ADD_FRIEND_MSG, before, 6, ctx, start);
        m := before.(vals := before.vals[5 := IntV(status)]);
        UpdateSix(before.vals, IntV(status));
      } else {
        AddFriendMsgTags(tag);
        known, ok, ptr := false, true, start;
      }
      assert Contents() == m;
    }

    /** Parses a window on top of what the object holds. */
    method InternalParse(ctx: ParseContext, start: nat) returns (ok: bool, ptr: nat)
      requires ctx.Open(start) && ctx.EndedAtLimit()
      modifies `senderId, `uniqueId, `msgId, `threadId, `msgcontent, `status, `unknown, ctx`lastTagMinus1
      ensures Shows(Parse(ADD_FRIEND_MSG, old(Contents()), old(ctx.Window(start))), ok, ptr, ctx, Contents())
    {
      hide Parse, ParseField, IsStopTag, FieldTag;
      ghost var m := Contents();
      ghost var goal := Parse(ADD_FRIEND_MSG, m, ctx.Window(start));
      ok, ptr := true, start;
      while ptr < ctx.limit
        invariant ok && ctx.Open(ptr) && ctx.EndedAtLimit()
        invariant Contents() == m && Parse(ADD_FRIEND_MSG, m, ctx.Window(ptr)) == goal
        decreases ctx.limit - ptr
      {
        var tag, known;
        ok, ptr, tag := NextTag(ADD_FRIEND_MSG, m, ctx, ptr);
        if !ok { return; }
        known, ok, ptr, m := ParseDeclared(ctx, tag, ptr, m, ctx.Window(ptr));
        if !known {
          if IsStopTag(tag) {
            AtStopTag(ADD_FRIEND_MSG, m, tag, ctx.Window(ptr));
            ctx.SetLastTag(tag);
            return true, ptr;
          }
          var r;
          ok, ptr, r := NextUnknown(ADD_FRIEND_MSG, m, tag, ctx, ptr);
          unknown, m := unknown + [r], m.(unknown := m.unknown + [r]);
        }
        if !ok { return; }
      }
      AtTheEnd(ADD_FRIEND_MSG, m, ctx.Window(ptr));
    }

    /** Appends the message. */
    method InternalSerialize(target: seq<byte>) returns (out: seq<byte>)
      ensures out == target + Encode(ADD_FRIEND_MSG, Contents(), false)
      ensures out == target + EncodeRecords(
        IntRecords(1, senderId) + TextRecords(2, uniqueId) + IntRecords(3, msgId)
        + IntRecords(4, threadId) + TextRecords(5, msgcontent)
        + IntRecords(6, status) + unknown)
    {
      hide FieldsTo, EncodeRecords, EncodeRecord, Encode, Extend64;
      ghost var m := Contents();
      NothingWritten(ADD_FRIEND_MSG, m, target);
      out := target;
      out := PutInt32(ADD_FRIEND_MSG, m, target, 1, senderId, out);
      out := PutText(ADD_FRIEND_MSG, m, target, 2, uniqueId, out);
      out := PutInt32(ADD_FRIEND_MSG, m, target, 3, msgId, out);
      out := PutInt32(ADD_FRIEND_MSG, m, target, 4, threadId, out);
      out := PutText(ADD_FRIEND_MSG, m, target, 5, msgcontent, out);
      out := PutInt32(ADD_FRIEND_MSG, m, target, 6, status, out);
      if unknown != [] { out := InternalSerializeUnknownFieldsToArray(unknown, out); }
      AllFieldsWritten(ADD_FRIEND_MSG, m, target);
      AddFriendMsgIsTyped(this);
      AddFriendMsgWritten(m);
    }

    /** Computes the serialized size and remembers it. */
    method ByteSizeLong() returns (total: nat)
      modifies `cachedSize
      ensures total == |Encode(ADD_FRIEND_MSG, Contents(), false)|
      ensures cachedSize == ToCachedSize(total)
    {
      hide CountInt32, CountText, ScalarSize, RecordsSize, Encode, ToInt32;
      AddFriendMsgSize(Contents());
      total := 0;
      total := total + CountText(uniqueId);
      total := total + CountText(msgcontent);
      total := total + CountInt32(senderId);
      total := total + CountInt32(msgId);
      total := total + CountInt32(threadId);
      total := total + CountInt32(status);
      if unknown != [] { total := ComputeUnknownFieldsSize(unknown, total); }
      cachedSize := ToCachedSize(total);
    }

    /** Takes over the other object's non-default fields and its unknown records. */
    method MergeFrom(from: AddFriendMsg)
      requires from != this
      modifies `senderId, `uniqueId, `msgId, `threadId, `msgcontent, `status, `unknown
      ensures Contents() == Merge(old(Contents()), from.Contents())
    {
      hide MergeValue, MergeInt32, MergeText;
      ghost var before, added := Contents(), from.Contents();
      unknown := unknown + from.unknown;
      uniqueId := MergeText(uniqueId, from.uniqueId);
      msgcontent := MergeText(msgcontent, from.msgcontent);
      senderId := MergeInt32(senderId, from.senderId);
      msgId := MergeInt32(msgId, from.msgId);
      threadId := MergeInt32(threadId, from.threadId);
      status := MergeInt32(status, from.status);
      MergeIs(before, added, Contents());
    }

    /** Makes the contents equal; copying from itself changes nothing. */
    method CopyFrom(from: AddFriendMsg)
      modifies `senderId, `uniqueId, `msgId, `threadId, `msgcontent, `status, `unknown
      ensures Contents() == old(from.Contents())
    {
      if from == this { return; }
      Clear();
      MergeFrom(from);
      AddFriendMsgIsTyped(from);
      MergeIntoDefault(ADD_FRIEND_MSG, from.Contents());
    }
  }

  /** The fields of an object have the types its schema says. */
  lemma AddFriendMsgIsTyped(x: AddFriendMsg)
    ensures HasSchema(ADD_FRIEND_MSG, x.Contents())
  {
  }

  /** Any other tag belongs to no field of the class. */
  lemma AddFriendMsgTags(tag: uint32)
    requires tag !in {8, 18, 24, 32, 42, 48}
    ensures forall k | 0 <= k < 6 :: tag != FieldTag(ADD_FRIEND_MSG, k)
  {}

  /** The size of a message is the sum over its fields. */
  lemma AddFriendMsgSize(m: Message)
    requires |m.vals| == 6 && forall k | 0 <= k < 6 :: !m.vals[k].ListV?
    ensures |Encode(ADD_FRIEND_MSG, m, false)|
         == ScalarSize(m.vals[0]) + ScalarSize(m.vals[1]) + ScalarSize(m.vals[2])
          + ScalarSize(m.vals[3]) + ScalarSize(m.vals[4]) + ScalarSize(m.vals[5])
          + RecordsSize(m.unknown)
    ensures m.unknown == [] ==> RecordsSize(m.unknown) == 0
  {
    hide FieldsSize, Encode, ScalarSize, RecordsSize;
    SizeCounted(ADD_FRIEND_MSG, m);
    FieldCounted(ADD_FRIEND_MSG, m, 0);
    FieldCounted(ADD_FRIEND_MSG, m, 1);
    FieldCounted(ADD_FRIEND_MSG, m, 2);
    FieldCounted(ADD_FRIEND_MSG, m, 3);
    FieldCounted(ADD_FRIEND_MSG, m, 4);
    FieldCounted(ADD_FRIEND_MSG, m, 5);
  }

  /** The contents of several children, in order. */
  ghost function AddFriendMsgs(cs: seq<AddFriendMsg>): (ms: seq<Message>)
    reads cs`senderId, cs`uniqueId, cs`msgId, cs`threadId, cs`msgcontent, cs`status, cs`unknown
    ensures |ms| == |cs|
  {
    if cs == [] then [] else [cs[0].Contents()] + AddFriendMsgs(cs[1..])
  }

  /** The sizes that several children remember. */
  ghost function AddFriendMsgSizes(cs: seq<AddFriendMsg>): (sizes: seq<int32>)
    reads cs`cachedSize
    ensures |sizes| == |cs|
  {
    if cs == [] then [] else [cs[0].cachedSize] + AddFriendMsgSizes(cs[1..])
  }

  lemma {:induction false} AddFriendMsgAt(cs: seq<AddFriendMsg>, i: nat)
    requires i < |cs|
    ensures AddFriendMsgs(cs)[i] == cs[i].Contents() && AddFriendMsgSizes(cs)[i] == cs[i].cachedSize
  {
    if i > 0 { AddFriendMsgAt(cs[1..], i - 1); }
  }

  lemma {:induction false} AddFriendMsgsConcat(a: seq<AddFriendMsg>, b: seq<AddFriendMsg>)
    ensures AddFriendMsgs(a + b) == AddFriendMsgs(a) + AddFriendMsgs(b)
  {
    if a == [] {
      assert a + b == b;
    } else {
      assert (a + b)[1..] == a[1..] + b;
      AddFriendMsgsConcat(a[1..], b);
    }
  }

  lemma AddFriendMsgsOne(c: AddFriendMsg)
    ensures AddFriendMsgs([c]) == [c.Contents()]
  {
    assert [c][1..] == [];
  }

  lemma AddFriendMsgsNone()
    ensures AddFriendMsgs([]) == []
  {}

  /** The children from the `i`-th on. */
  lemma AddFriendMsgsFrom(cs: seq<AddFriendMsg>, i: nat)
    requires i < |cs|
    ensures AddFriendMsgs(cs[i..]) == [cs[i].Contents()] + AddFriendMsgs(cs[i + 1..])
  {
    assert cs[i..][1..] == cs[i + 1..];
  }

  lemma {:induction false} AddFriendMsgsAreTyped(cs: seq<AddFriendMsg>)
    ensures forall c | c in AddFriendMsgs(cs) :: HasSchema(ADD_FRIEND_MSG, c)
  {
    if cs != [] {
      AddFriendMsgIsTyped(cs[0]);
      AddFriendMsgsAreTyped(cs[1..]);
    }
  }

  /** The records that children are written as. */
  ghost function AddFriendMsgRecords(num: nat, cs: seq<AddFriendMsg>): (rs: seq<Record>)
    reads cs`senderId, cs`uniqueId, cs`msgId, cs`threadId, cs`msgcontent, cs`status, cs`unknown
    ensures |rs| == |cs|
  {
    if cs == [] then []
    else [Record(num, Bytes(EncodeRecords(
      IntRecords(1, cs[0].senderId) + TextRecords(2, cs[0].uniqueId)
      + IntRecords(3, cs[0].msgId) + IntRecords(4, cs[0].threadId)
      + TextRecords(5, cs[0].msgcontent) + IntRecords(6, cs[0].status)
      + cs[0].unknown)))] + AddFriendMsgRecords(num, cs[1..])
  }

  lemma {:induction false} AddFriendMsgsWritten(num: nat, cs: seq<AddFriendMsg>)
    ensures ChildRecords(num, ADD_FRIEND_MSG, AddFriendMsgs(cs), false) == AddFriendMsgRecords(num, cs)
  {
    if cs != [] {
      hide Encode, EncodeRecords, Extend64;
      AddFriendMsgsWritten(num, cs[1..]);
      AddFriendMsgIsTyped(cs[0]);
      AddFriendMsgWritten(cs[0].Contents());
    }
  }

  /** A child parsed from a payload holds what the payload's records say. */
  lemma AddFriendMsgLaw(cs: seq<AddFriendMsg>, ds: seq<seq<byte>>, i: nat)
    requires ChildrenLaw(ADD_FRIEND_MSG, AddFriendMsgs(cs), ds) && i < |ds|
    ensures |cs| == |ds| && Records(ds[i]).Some? && cs[i].Holds(Records(ds[i]).value)
  {
    hide Parse, ToInt32, LastNumber, LastBytes, Undeclared, Records, AddFriendMsgs, AddFriendMsgSizes, ValidUtf8;
    AddFriendMsgAt(cs, i);
    AddFriendMsgByRecords(ds[i]);
  }

  lemma AddFriendMsgsHold(cs: seq<AddFriendMsg>, ds: seq<seq<byte>>)
    requires ChildrenLaw(ADD_FRIEND_MSG, AddFriendMsgs(cs), ds)
    ensures |cs| == |ds|
    ensures forall i | 0 <= i < |ds| :: Records(ds[i]).Some? && cs[i].Holds(Records(ds[i]).value)
  {
    hide AddFriendMsgs, Records, ChildrenLaw, AddFriendMsg.Holds;
    ChildrenCount(ADD_FRIEND_MSG, AddFriendMsgs(cs), ds);
    forall i | 0 <= i < |ds| { AddFriendMsgLaw(cs, ds, i); }
  }

  /** Writes children one by one, each framed with the size it remembers. */
  method InternalWriteAddFriendMsgs(num: nat, cs: seq<AddFriendMsg>, target: seq<byte>) returns (out: seq<byte>)
    ensures out == target + Framed(num, ADD_FRIEND_MSG, AddFriendMsgs(cs), AddFriendMsgSizes(cs))
  {
    hide AddFriendMsgs, AddFriendMsgSizes, Framed, Encode, Varint, Low32, EncodeRecords, IntRecords, TextRecords;
    ghost var items, sizes := AddFriendMsgs(cs), AddFriendMsgSizes(cs);
    out := target;
    var i := 0;
    while i < |cs|
      invariant i <= |cs|
      invariant out + Framed(num, ADD_FRIEND_MSG, items[i..], sizes[i..])
             == target + Framed(num, ADD_FRIEND_MSG, items, sizes)
    {
      AddFriendMsgAt(cs, i);
      FramedStep(num, ADD_FRIEND_MSG, items, sizes, i, out);
      out := WriteTag(num, 2, out);
      out := WriteVarint(Low32(cs[i].cachedSize), out);
      out := cs[i].InternalSerialize(out);
      i := i + 1;
    }
    FramedEnd(num, ADD_FRIEND_MSG, items[i..], sizes[i..], out);
  }

  /** Measures children one by one, leaving its size in each. */
  method AddFriendMsgsByteSize(cs: seq<AddFriendMsg>) returns (total: nat)
    modifies cs`cachedSize
    ensures total == |cs| + ChildrenSize(ADD_FRIEND_MSG, AddFriendMsgs(cs))
    ensures Fresh(ADD_FRIEND_MSG, AddFriendMsgs(cs), AddFriendMsgSizes(cs))
  {
    hide AddFriendMsgs, AddFriendMsgSizes, ChildrenSize, Encode, ToInt32;
    ghost var items := AddFriendMsgs(cs);
    total := |cs|;
    var i := 0;
    while i < |cs|
      invariant i <= |cs|
      invariant total + ChildrenSize(ADD_FRIEND_MSG, items[i..]) == |cs| + ChildrenSize(ADD_FRIEND_MSG, items)
      invariant forall j | 0 <= j < i ::
        cs[j].cachedSize == ToCachedSize(|Encode(ADD_FRIEND_MSG, cs[j].Contents(), false)|)
    {
      AddFriendMsgAt(cs, i);
      ChildrenSizeStep(ADD_FRIEND_MSG, items, i);
      var size := cs[i].ByteSizeLong();
      total := total + LengthDelimitedSize(size);
      i := i + 1;
    }
    ChildrenSizeEnd(ADD_FRIEND_MSG, items[i..]);
    forall j | 0 <= j < |cs|
      ensures AddFriendMsgSizes(cs)[j] == cs[j].cachedSize && items[j] == cs[j].Contents()
    {
      AddFriendMsgAt(cs, j);
    }
  }

  /** A new child that the original is merged into. */
  method Clone(x: AddFriendMsg) returns (c: AddFriendMsg)
    ensures fresh(c) && c.Contents() == x.Contents()
  {
    c := new AddFriendMsg();
    c.MergeFrom(x);
    AddFriendMsgIsTyped(x);
    MergeIntoDefault(ADD_FRIEND_MSG, x.Contents());
  }

  /** Deep copies, in order. */
  method CopyAddFriendMsgs(cs: seq<AddFriendMsg>) returns (copies: seq<AddFriendMsg>)
    ensures AddFriendMsgs(copies) == AddFriendMsgs(cs)
    ensures fresh(set c | c in copies)
  {
    hide AddFriendMsgs;
    AddFriendMsgsNone();
    copies := [];
    var i := 0;
    assert cs[i..] == cs && AddFriendMsgs(copies) + AddFriendMsgs(cs) == AddFriendMsgs(cs);
    while i < |cs|
      invariant i <= |cs| && AddFriendMsgs(copies) + AddFriendMsgs(cs[i..]) == AddFriendMsgs(cs)
      invariant fresh(set c | c in copies)
    {
      AddFriendMsgsFrom(cs, i);
      ghost var all, done, rest := AddFriendMsgs(cs), AddFriendMsgs(copies), AddFriendMsgs(cs[i + 1..]);
      Associative(done, [cs[i].Contents()], rest);
      var c := Clone(cs[i]);
      assert AddFriendMsgs(cs) == all && AddFriendMsgs(copies) == done && AddFriendMsgs(cs[i + 1..]) == rest;
      AddFriendMsgsConcat(copies, [c]);
      AddFriendMsgsOne(c);
      copies := copies + [c];
      i := i + 1;
    }
    assert cs[i..] == [] && AddFriendMsgs(copies) + [] == AddFriendMsgs(copies);
  }

  /** Parses one length-prefixed child in a window of its own. */
  method ParseAddFriendMsg(c: AddFriendMsg, ctx: ParseContext, start: nat) returns (ok: bool, ptr: nat)
    requires ctx.Open(start) && ctx.EndedAtLimit()
    modifies c, ctx
    ensures ctx.limit == old(ctx.limit)
    ensures ok ==> ctx.EndedAtLimit() && start < ptr <= ctx.limit
    ensures match ReadPayload(2, ctx.Window(start))
      case Bad => !ok
      case Got(p, rest) =>
        var o := Parse(ADD_FRIEND_MSG, old(c.Contents()), p.data);
        ok == o.Done? && (ok ==> c.Contents() == o.m && ctx.Window(ptr) == rest)
  {
    hide Parse, Wire.ReadSize;
    var size;
    ok, ptr, size := Library.ReadSize(ctx, start);
    if !ok || size > ctx.limit - ptr { return false, ptr; }
    ghost var rest := ctx.Window(ptr);
    Split(ctx.buffer, ptr, ptr + size, ctx.limit);
    var delta := ctx.PushLimit(ptr, size);
    ok, ptr := c.InternalParse(ctx, ptr);
    var popped := ctx.PopLimit(delta);
    ok := ok && popped;
  }

  /** Adds an empty child, then parses into it. */
  method AddParsedAddFriendMsg(ctx: ParseContext, start: nat, cs: seq<AddFriendMsg>)
    returns (ok: bool, ptr: nat, all: seq<AddFriendMsg>)
    requires ctx.Open(start) && ctx.EndedAtLimit()
    modifies ctx
    ensures ctx.limit == old(ctx.limit)
    ensures forall c | c in all :: c in cs || fresh(c)
    ensures ok ==> ctx.EndedAtLimit() && start < ptr <= ctx.limit
    ensures match ReadPayload(2, ctx.Window(start))
      case Bad => !ok
      case Got(p, rest) =>
        var o := Parse(ADD_FRIEND_MSG, Default(ADD_FRIEND_MSG), p.data);
        && ok == o.Done?
        && (ok ==> AddFriendMsgs(all) == AddFriendMsgs(cs) + [o.m] && ctx.Window(ptr) == rest)
  {
    hide Parse, ReadPayload, AddFriendMsgs;
    var c := new AddFriendMsg();
    all := cs + [c];
    ok, ptr := ParseAddFriendMsg(c, ctx, start);
    AddFriendMsgsConcat(cs, [c]);
    AddFriendMsgsOne(c);
  }

  /** The loop over children with the same tag byte, which goes on without the outer dispatch. */
  method ParseAddFriendMsgs(ctx: ParseContext, start: nat, tag: byte, cs: seq<AddFriendMsg>)
    returns (ok: bool, ptr: nat, all: seq<AddFriendMsg>)
    requires ctx.Open(start) && ctx.EndedAtLimit()
    modifies ctx
    ensures ctx.limit == old(ctx.limit)
    ensures forall c | c in all :: c in cs || fresh(c)
    ensures ok ==> ctx.EndedAtLimit() && start < ptr <= ctx.limit
    ensures match FastRun(ADD_FRIEND_MSG, tag, AddFriendMsgs(cs), ctx.Window(start))
      case Broke => !ok
      case Ran(items, rest) => ok && AddFriendMsgs(all) == items && ctx.Window(ptr) == rest
  {
    hide AddFriendMsgs, Parse, ReadPayload;
    ghost var goal := FastRun(ADD_FRIEND_MSG, tag, AddFriendMsgs(cs), ctx.Window(start));
    ptr, all := start, cs;
    while true
      invariant ctx.Open(ptr) && start <= ptr && ctx.EndedAtLimit() && ctx.limit == old(ctx.limit)
      invariant forall c | c in all :: c in cs || fresh(c)
      invariant FastRun(ADD_FRIEND_MSG, tag, AddFriendMsgs(all), ctx.Window(ptr)) == goal
      decreases ctx.limit - ptr
    {
      ok, ptr, all := AddParsedAddFriendMsg(ctx, ptr, all);
      if !ok { return; }
      if ptr >= ctx.limit || ctx.buffer[ptr] != tag { return; }
      assert ctx.Window(ptr)[1..] == ctx.Window(ptr + 1);
      ptr := ptr + 1;
    }
  }

  /** A field of children, read on top of the children it holds: the parse it is in the middle of moves on. */
  method NextAddFriendMsgs(ghost s: Schema, ghost m: Message, num: nat, ctx: ParseContext, start: nat,
                                cs: seq<AddFriendMsg>)
    returns (ok: bool, ptr: nat, all: seq<AddFriendMsg>)
    requires ctx.Open(start) && ctx.EndedAtLimit()
    requires 1 <= num <= |s.fields| == |m.vals| && 8 * num + 2 < 128
    requires s.fields[num - 1] == Repeated(ADD_FRIEND_MSG) && m.vals[num - 1] == ListV(AddFriendMsgs(cs))
    modifies ctx
    ensures ctx.limit == old(ctx.limit)
    ensures forall c | c in all :: c in cs || fresh(c)
    ensures ok ==> ctx.EndedAtLimit() && start < ptr <= ctx.limit
    ensures ParseField(s, m, 8 * num + 2, old(ctx.Window(start)))
         == if ok then Parse(s, m.(vals := m.vals[num - 1 := ListV(AddFriendMsgs(all))]), ctx.Window(ptr)) else Failed
  {
    hide AddFriendMsgs, Parse, ParseField, FastRun;
    FastRunRefines(s, m, num, ADD_FRIEND_MSG, ctx.Window(start));
    ok, ptr, all := ParseAddFriendMsgs(ctx, start, 8 * num + 2, cs);
  }

  /** Which inputs are an AuthFriendReq, and what its fields then are, by their records alone. */
  lemma AuthFriendReqByRecords(b: seq<byte>)
    ensures Parse(AUTH_FRIEND_REQ, Default(AUTH_FRIEND_REQ), b).Done? <==>
      && Records(b).Some?
      && forall r | r in Records(b).value && r.payload.Bytes? && r.num == 3 ::
        && Records(r.payload.data).Some?
        && forall q | q in Records(r.payload.data).value && q.payload.Bytes? && q.num in {2, 5} ::
          ValidUtf8(q.payload.data)
    ensures Parse(AUTH_FRIEND_REQ, Default(AUTH_FRIEND_REQ), b).Done? ==>
      var m, rs := Parse(AUTH_FRIEND_REQ, Default(AUTH_FRIEND_REQ), b).m, Records(b).value;
      && m.vals[0] == IntV(ToInt32(LastNumber(rs, 1, 0)))
      && m.vals[1] == IntV(ToInt32(LastNumber(rs, 2, 0)))
      && m.vals[2].ListV? && ChildrenLaw(ADD_FRIEND_MSG, m.vals[2].items, AllBytes(rs, 3))
      && m.unknown == Undeclared(rs, {1, 2}, {3})
  {
    hide Parse, ValidUtf8, ToInt32, ToInt64, LastNumber, LastBytes, Undeclared, ChildrenLaw, AllBytes;
    var s := AUTH_FRIEND_REQ;
    MessageByRecords(s, b, {1, 2}, {3});
    if Records(b).Some? {
      var rs := Records(b).value;
      hide Records;
      assert FieldAccepts(s.fields[0], rs, 1);
      assert FieldAccepts(s.fields[1], rs, 2);
      forall r | r in rs && r.num == 3 && r.payload.Bytes? { AddFriendMsgByRecords(r.payload.data); }
      assert FieldAccepts(s.fields[2], rs, 3) <==> FieldAccepts(Repeated(ADD_FRIEND_MSG), rs, 3);
    }
    if Parse(s, Default(s), b).Done? {
      var m, rs := Parse(s, Default(s), b).m, Records(b).value;
      assert FieldLaw(s.fields[0], m.vals[0], rs, 1);
      assert FieldLaw(s.fields[1], m.vals[1], rs, 2);
      assert FieldLaw(s.fields[2], m.vals[2], rs, 3);
    }
  }

  lemma AuthFriendReqKinds(m: Message)
    requires HasSchema(AUTH_FRIEND_REQ, m)
    ensures |m.vals| == 3
    ensures m.vals[0].IntV? && m.vals[1].IntV?
  {
    var s := AUTH_FRIEND_REQ;
    assert HasKind(s.fields[0], m.vals[0]) && HasKind(s.fields[1], m.vals[1]);
  }

  /** The records the fields before the children are written as, in number order. */
  lemma AuthFriendReqScalars(m: Message)
    requires HasSchema(AUTH_FRIEND_REQ, m)
    ensures |m.vals| == 3 && m.vals[0].IntV? && m.vals[1].IntV?
    ensures FieldsTo(AUTH_FRIEND_REQ, m, 2, false)
         == IntRecords(1, m.vals[0].i) + IntRecords(2, m.vals[1].i)
  {
    var s := AUTH_FRIEND_REQ;
    AuthFriendReqKinds(m);
    assert FieldsTo(s, m, 0, false) == [];
    hide HasSchema, FieldsTo, FieldRecords, EncodeRecords, Extend64, IntRecords, BoolRecords, TextRecords;
    NextField(s, m, 0, false);
    NextField(s, m, 1, false);
    assert FieldsTo(s, m, 1, false) == IntRecords(1, m.vals[0].i);
  }

  /** What is written when the children remember these sizes. */
  lemma AuthFriendReqFramedBytes(x: AuthFriendReq)
    ensures var items, sizes := AddFriendMsgs(x.textmsgs), AddFriendMsgSizes(x.textmsgs);
      Written(AUTH_FRIEND_REQ, x.Contents(), ADD_FRIEND_MSG, items, sizes)
      == EncodeRecords(IntRecords(1, x.fromuid) + IntRecords(2, x.touid))
       + Framed(3, ADD_FRIEND_MSG, items, sizes)
       + EncodeRecords(x.unknown)
  {
    hide FieldsTo, EncodeRecords, Framed, AddFriendMsgs, AddFriendMsgSizes, IntRecords;
    AuthFriendReqIsTyped(x);
    AuthFriendReqScalars(x.Contents());
  }

  /** What is written when they remember their own sizes. */
  lemma AuthFriendReqBytes(x: AuthFriendReq)
    ensures Encode(AUTH_FRIEND_REQ, x.Contents(), false)
         == EncodeRecords(IntRecords(1, x.fromuid) + IntRecords(2, x.touid)
              + AddFriendMsgRecords(3, x.textmsgs) + x.unknown)
  {
    hide FieldsTo, EncodeRecords, ChildRecords, FieldRecords, AddFriendMsgs, AddFriendMsgRecords, IntRecords;
    var m := x.Contents();
    AuthFriendReqIsTyped(x);
    AuthFriendReqScalars(m);
    NextField(AUTH_FRIEND_REQ, m, 2, false);
    ListRecords(3, ADD_FRIEND_MSG, m.vals[2]);
    AddFriendMsgsWritten(3, x.textmsgs);
  }

  /** The request that confirms a friend, with the first messages of the chat. */
  class AuthFriendReq {
    var fromuid: int32
    var touid: int32
    var textmsgs: seq<AddFriendMsg>
    var unknown: seq<Record>
    var cachedSize: int32

    /** The message this object holds; the cached size is no part of it. */
    ghost function Contents(): (m: Message)
      reads `fromuid, `touid, `textmsgs, `unknown
      reads textmsgs`senderId, textmsgs`uniqueId, textmsgs`msgId, textmsgs`threadId
      reads textmsgs`msgcontent, textmsgs`status, textmsgs`unknown
      ensures |m.vals| == 3
    {
      Message([IntV(fromuid), IntV(touid), ListV(AddFriendMsgs(textmsgs))], unknown)
    }

    constructor ()
      ensures Contents() == Default(AUTH_FRIEND_REQ)
      ensures fromuid == 0 && touid == 0 && textmsgs == [] && unknown == []
    {
      fromuid := 0;
      touid := 0;
      textmsgs := [];
      unknown, cachedSize := [], 0;
      new;
      assert Contents().vals == Default(AUTH_FRIEND_REQ).vals;
    }

    /** The copy constructor: field by field, with deep copies of the children. */
    constructor Copy(from: AuthFriendReq)
      ensures Contents() == from.Contents()
      ensures fresh(set c | c in textmsgs)
    {
      var copies := CopyAddFriendMsgs(from.textmsgs);
      fromuid := from.fromuid;
      touid := from.touid;
      textmsgs := copies;
      unknown, cachedSize := from.unknown, 0;
      new;
      hide AddFriendMsgs;
    }

    method Clear()
      modifies `fromuid, `touid, `textmsgs, `unknown
      ensures Contents() == Default(AUTH_FRIEND_REQ)
      ensures fromuid == 0 && touid == 0 && textmsgs == [] && unknown == []
    {
      textmsgs := [];
      fromuid := 0;
      touid := 0;
      unknown := [];
      assert Contents().vals == Default(AUTH_FRIEND_REQ).vals;
    }

    /** The switch over the declared fields. */
    method ParseDeclared(ctx: ParseContext, tag: uint32, start: nat, ghost before: Message, ghost window: seq<byte>)
      returns (known: bool, ok: bool, ptr: nat, ghost m: Message)
      requires ctx.Open(start) && window == ctx.Window(start) && Contents() == before && ctx.EndedAtLimit()
      modifies `fromuid, `touid, `textmsgs, ctx
      ensures ctx.limit == old(ctx.limit) && (!known || ok ==> ctx.EndedAtLimit())
      ensures forall c | c in textmsgs :: c in old(textmsgs) || fresh(c)
      ensures Contents() == m
      ensures !known ==> ptr == start && m == before
      ensures !known ==> forall k | 0 <= k < 3 :: tag != FieldTag(AUTH_FRIEND_REQ, k)
      ensures known && ok ==> start < ptr <= ctx.limit
      ensures known ==>
        ParseField(AUTH_FRIEND_REQ, before, tag, window)
        == if ok then Parse(AUTH_FRIEND_REQ, m, ctx.Window(ptr)) else Failed
    {
      hide Parse, ParseField, TagIs, FieldTag, AddFriendMsgs, FastRun;
      known, m := true, before;
      ghost var items := AddFriendMsgs(textmsgs);
      if TagIs(tag, 8) {
        ok, ptr, fromuid := NextInt32(AUTH_FRIEND_REQ, before, 1, ctx, start);
        m := before.(vals := before.vals[0 := IntV(fromuid)]);
        assert AddFriendMsgs(textmsgs) == items;
        assert Contents().vals == m.vals;
      } else if TagIs(tag, 16) {
        ok, ptr, touid := NextInt32(AUTH_FRIEND_REQ, before, 2, ctx, start);
        m := before.(vals := before.vals[1 := IntV(touid)]);
        assert AddFriendMsgs(textmsgs) == items;
        assert Contents().vals == m.vals;
      } else if TagIs(tag, 26) {
        ok, ptr, textmsgs := NextAddFriendMsgs(AUTH_FRIEND_REQ, before, 3, ctx, start, textmsgs);
        items := AddFriendMsgs(textmsgs);
        m := before.(vals := before.vals[2 := ListV(items)]);
        assert Contents().vals == m.vals;
      } else {
        AuthFriendReqTags(tag);
        known, ok, ptr := false, true, start;
      }
    }

    /** Parses a window on top of what the object holds. */
    method InternalParse(ctx: ParseContext, start: nat) returns (ok: bool, ptr: nat)
      requires ctx.Open(start) && ctx.EndedAtLimit()
      modifies `fromuid, `touid, `textmsgs, `unknown, ctx
      ensures ctx.limit == old(ctx.limit)
      ensures Shows(Parse(AUTH_FRIEND_REQ, old(Contents()), old(ctx.Window(start))), ok, ptr, ctx, Contents())
      ensures forall c | c in textmsgs :: c in old(textmsgs) || fresh(c)
    {
      hide AddFriendMsgs, Parse, ParseField, IsStopTag, FieldTag;
      ghost var m := Contents();
      ghost var goal := Parse(AUTH_FRIEND_REQ, m, ctx.Window(start));
      ok, ptr := true, start;
      while ptr < ctx.limit
        invariant ok && ctx.Open(ptr) && ctx.EndedAtLimit()
        invariant ctx.limit == old(ctx.limit)
        invariant forall c | c in textmsgs :: c in old(textmsgs) || fresh(c)
        invariant Contents() == m && Parse(AUTH_FRIEND_REQ, m, ctx.Window(ptr)) == goal
        decreases ctx.limit - ptr
      {
        var tag, known;
        ok, ptr, tag := NextTag(AUTH_FRIEND_REQ, m, ctx, ptr);
        if !ok { return; }
        assert Contents() == m;
        known, ok, ptr, m := ParseDeclared(ctx, tag, ptr, m, ctx.Window(ptr));
        if !known {
          if IsStopTag(tag) {
            AtStopTag(AUTH_FRIEND_REQ, m, tag, ctx.Window(ptr));
            ctx.SetLastTag(tag);
            return true, ptr;
          }
          var r;
          ok, ptr, r := NextUnknown(AUTH_FRIEND_REQ, m, tag, ctx, ptr);
          assert Contents() == m;
          unknown, m := unknown + [r], m.(unknown := m.unknown + [r]);
        }
        if !ok { return; }
      }
      AtTheEnd(AUTH_FRIEND_REQ, m, ctx.Window(ptr));
    }

    /** Appends the message, with the sizes the children remember as their length prefixes. */
    method InternalSerialize(target: seq<byte>) returns (out: seq<byte>)
      ensures out == target
        + Written(AUTH_FRIEND_REQ, Contents(), ADD_FRIEND_MSG, AddFriendMsgs(textmsgs), AddFriendMsgSizes(textmsgs))
      ensures out == target
        + (EncodeRecords(IntRecords(1, fromuid) + IntRecords(2, touid))
          + Framed(3, ADD_FRIEND_MSG, AddFriendMsgs(textmsgs), AddFriendMsgSizes(textmsgs))
          + EncodeRecords(unknown))
    {
      hide FieldsTo, EncodeRecords, EncodeRecord, Encode, Extend64;
      hide Framed, Written, IntRecords, AddFriendMsgs, AddFriendMsgSizes;
      ghost var m := Contents();
      NothingWritten(AUTH_FRIEND_REQ, m, target);
      out := target;
      out := PutInt32(AUTH_FRIEND_REQ, m, target, 1, fromuid, out);
      out := PutInt32(AUTH_FRIEND_REQ, m, target, 2, touid, out);
      out := InternalWriteAddFriendMsgs(3, textmsgs, out);
      if unknown != [] { out := InternalSerializeUnknownFieldsToArray(unknown, out); }
      ghost var items, sizes := AddFriendMsgs(textmsgs), AddFriendMsgSizes(textmsgs);
      WrittenInOrder(AUTH_FRIEND_REQ, m, ADD_FRIEND_MSG, items, sizes, target);
      assert out == target + Written(AUTH_FRIEND_REQ, m, ADD_FRIEND_MSG, items, sizes);
      AuthFriendReqFramedBytes(this);
    }

    /** Computes the serialized size and remembers it, here and in the children. */
    method ByteSizeLong() returns (total: nat)
      modifies `cachedSize, textmsgs`cachedSize
      ensures total == |Encode(AUTH_FRIEND_REQ, Contents(), false)|
      ensures cachedSize == ToCachedSize(total)
      ensures Fresh(ADD_FRIEND_MSG, AddFriendMsgs(textmsgs), AddFriendMsgSizes(textmsgs))
    {
      hide AddFriendMsgs, AddFriendMsgSizes, CountInt32, ScalarSize, RecordsSize, Encode, ToInt32, ChildrenSize;
      AuthFriendReqSize(Contents());
      total := AddFriendMsgsByteSize(textmsgs);
      total := total + CountInt32(fromuid);
      total := total + CountInt32(touid);
      if unknown != [] { total := ComputeUnknownFieldsSize(unknown, total); }
      cachedSize := ToCachedSize(total);
    }

    /** Takes over the other object's non-default fields, copies of its children and its unknown records. */
    method MergeFrom(from: AuthFriendReq)
      requires from != this
      modifies `fromuid, `touid, `textmsgs, `unknown
      ensures Contents() == Merge(old(Contents()), from.Contents())
      ensures forall c | c in textmsgs :: c in old(textmsgs) || fresh(c)
    {
      hide AddFriendMsgs, MergeValue, MergeInt32;
      ghost var before, added := Contents(), from.Contents();
      var copies := CopyAddFriendMsgs(from.textmsgs);
      MergeList(before, added, 2);
      AddFriendMsgsConcat(textmsgs, copies);
      ghost var items := AddFriendMsgs(textmsgs + copies);
      unknown := unknown + from.unknown;
      textmsgs := textmsgs + copies;
      fromuid := MergeInt32(fromuid, from.fromuid);
      touid := MergeInt32(touid, from.touid);
      assert AddFriendMsgs(textmsgs) == items;
      assert from.Contents() == added;
      MergeIs(before, added, Contents());
    }

    /** Makes the contents equal; copying from itself changes nothing. */
    method CopyFrom(from: AuthFriendReq)
      modifies `fromuid, `touid, `textmsgs, `unknown
      ensures Contents() == old(from.Contents())
      ensures if from == this then textmsgs == old(textmsgs) else fresh(set c | c in textmsgs)
    {
      hide AddFriendMsgs;
      if from == this { return; }
      Clear();
      MergeFrom(from);
      AuthFriendReqIsTyped(from);
      MergeIntoDefault(AUTH_FRIEND_REQ, from.Contents());
    }

    /** The runtime's entry point for reading a whole buffer. */
    method ParseFromBytes(b: seq<byte>) returns (ok: bool)
      modifies `fromuid, `touid, `textmsgs, `unknown
      ensures ok == Parse(AUTH_FRIEND_REQ, Default(AUTH_FRIEND_REQ), b).Done?
      ensures ok ==> Contents() == Parse(AUTH_FRIEND_REQ, Default(AUTH_FRIEND_REQ), b).m
      ensures ok <==>
        && Records(b).Some?
        && forall r | r in Records(b).value && r.payload.Bytes? && r.num == 3 ::
          && Records(r.payload.data).Some?
          && forall q | q in Records(r.payload.data).value && q.payload.Bytes? && q.num in {2, 5} ::
            ValidUtf8(q.payload.data)
      ensures ok ==> var rs := Records(b).value;
        && fromuid == ToInt32(LastNumber(rs, 1, 0))
        && touid == ToInt32(LastNumber(rs, 2, 0))
        && unknown == Undeclared(rs, {1, 2}, {3})
      ensures ok ==> var ds := AllBytes(Records(b).value, 3);
        && |textmsgs| == |ds|
        && forall i | 0 <= i < |ds| :: Records(ds[i]).Some? && textmsgs[i].Holds(Records(ds[i]).value)
    {
      hide Parse, ValidUtf8, Records, LastNumber, LastBytes, Undeclared, ToInt32, ToInt64;
      hide AllBytes, ChildrenLaw, AddFriendMsgs;
      AuthFriendReqByRecords(b);
      Clear();
      var ctx := new ParseContext(b);
      assert ctx.Window(0) == b;
      var ptr;
      ok, ptr := InternalParse(ctx, 0);
      ok := ok && ctx.lastTagMinus1 == 0;
      if ok {
        AddFriendMsgsHold(textmsgs, AllBytes(Records(b).value, 3));
      }
    }

    /** The runtime's entry point for writing: measure first, then write, unless the size does not fit an int. */
    method SerializeToBytes() returns (ok: bool, out: seq<byte>)
      modifies `cachedSize, textmsgs`cachedSize
      ensures ok == (|Encode(AUTH_FRIEND_REQ, Contents(), false)| < POW31)
      ensures ok ==> out == Encode(AUTH_FRIEND_REQ, Contents(), false)
      ensures ok ==> out == EncodeRecords(
        IntRecords(1, fromuid) + IntRecords(2, touid)
        + AddFriendMsgRecords(3, textmsgs) + unknown)
    {
      hide Encode, Written, Framed, EncodeRecords, IntRecords, Fresh;
      hide AddFriendMsgRecords, AddFriendMsgs, AddFriendMsgSizes;
      var size := ByteSizeLong();
      if size >= POW31 { return false, []; }
      ok := true;
      out := InternalSerialize([]);
      ghost var items, sizes := AddFriendMsgs(textmsgs), AddFriendMsgSizes(textmsgs);
      WrittenExactly(AUTH_FRIEND_REQ, Contents(), ADD_FRIEND_MSG, items, sizes);
      AuthFriendReqBytes(this);
    }
  }

  /** The fields of an object have the types its schema says. */
  lemma AuthFriendReqIsTyped(x: AuthFriendReq)
    ensures HasSchema(AUTH_FRIEND_REQ, x.Contents())
  {
    AddFriendMsgsAreTyped(x.textmsgs);
  }

  /** Any other tag belongs to no field of the class. */
  lemma AuthFriendReqTags(tag: uint32)
    requires tag !in {8, 16, 26}
    ensures forall k | 0 <= k < 3 :: tag != FieldTag(AUTH_FRIEND_REQ, k)
  {}

  /** The size of a message is the sum over its fields. */
  lemma AuthFriendReqSize(m: Message)
    requires |m.vals| == 3 && forall k | 0 <= k < 3 :: (m.vals[k].ListV? <==> k == 2)
    ensures |Encode(AUTH_FRIEND_REQ, m, false)|
         == ScalarSize(m.vals[0]) + ScalarSize(m.vals[1])
          + |m.vals[2].items| + ChildrenSize(ADD_FRIEND_MSG, m.vals[2].items)
          + RecordsSize(m.unknown)
    ensures m.unknown == [] ==> RecordsSize(m.unknown) == 0
  {
    hide FieldsSize, Encode, ScalarSize, RecordsSize, ChildrenSize;
    SizeCounted(AUTH_FRIEND_REQ, m);
    FieldCounted(AUTH_FRIEND_REQ, m, 0);
    FieldCounted(AUTH_FRIEND_REQ, m, 1);
    ListCounted(AUTH_FRIEND_REQ, m, 2, ADD_FRIEND_MSG);
  }
}
