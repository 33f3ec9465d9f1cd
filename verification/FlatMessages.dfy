/**
 Messages without children: mixed numbers and texts, a bool, an int64.
 */
module FlatMessages {
  import opened Wire
  import opened Utf8
  import opened Codec
  import opened RoundTrip
  import opened Bounds
  import opened Schemas
  import opened Library
  import opened Framing
  import opened ParseSteps
  import opened WriteSteps
  import opened RecordLaws

  /** Which inputs are an AddFriendReq, and what its fields then are, by their records alone. */
  lemma AddFriendReqByRecords(b: seq<byte>)
    ensures Parse(ADD_FRIEND_REQ, Default(ADD_FRIEND_REQ), b).Done? <==>
      && Records(b).Some?
      && forall r | r in Records(b).value && r.payload.Bytes? && r.num in {2, 3, 4, 5} ::
        ValidUtf8(r.payload.data)
    ensures Parse(ADD_FRIEND_REQ, Default(ADD_FRIEND_REQ), b).Done? ==>
      var m, rs := Parse(ADD_FRIEND_REQ, Default(ADD_FRIEND_REQ), b).m, Records(b).value;
      && m.vals[0] == IntV(ToInt32(LastNumber(rs, 1, 0)))
      && m.vals[1] == TextV(LastBytes(rs, 2, []))
      && m.vals[2] == TextV(LastBytes(rs, 3, []))
      && m.vals[3] == TextV(LastBytes(rs, 4, []))
      && m.vals[4] == TextV(LastBytes(rs, 5, []))
      && m.vals[5] == IntV(ToInt32(LastNumber(rs, 6, 0)))
      && m.vals[6] == IntV(ToInt32(LastNumber(rs, 7, 0)))
      && m.unknown == Undeclared(rs, {1, 6, 7}, {2, 3, 4, 5})
  {
    hide Parse, ValidUtf8, ToInt32, ToInt64, LastNumber, LastBytes, Undeclared;
    var s := ADD_FRIEND_REQ;
    MessageByRecords(s, b, {1, 6, 7}, {2, 3, 4, 5});
    if Records(b).Some? {
      var rs := Records(b).value;
      hide Records;
      assert FieldAccepts(s.fields[0], rs, 1);
      assert FieldAccepts(s.fields[1], rs, 2) <==> FieldAccepts(Text, rs, 2);
      assert FieldAccepts(s.fields[2], rs, 3) <==> FieldAccepts(Text, rs, 3);
      assert FieldAccepts(s.fields[3], rs, 4) <==> FieldAccepts(Text, rs, 4);
      assert FieldAccepts(s.fields[4], rs, 5) <==> FieldAccepts(Text, rs, 5);
      assert FieldAccepts(s.fields[5], rs, 6);
      assert FieldAccepts(s.fields[6], rs, 7);
    }
    if Parse(s, Default(s), b).Done? {
      var m, rs := Parse(s, Default(s), b).m, Records(b).value;
      assert FieldLaw(s.fields[0], m.vals[0], rs, 1);
      assert FieldLaw(s.fields[1], m.vals[1], rs, 2);
      assert FieldLaw(s.fields[2], m.vals[2], rs, 3);
      assert FieldLaw(s.fields[3], m.vals[3], rs, 4);
      assert FieldLaw(s.fields[4], m.vals[4], rs, 5);
      assert FieldLaw(s.fields[5], m.vals[5], rs, 6);
      assert FieldLaw(s.fields[6], m.vals[6], rs, 7);
    }
  }

  lemma AddFriendReqKinds(m: Message)
    requires HasSchema(ADD_FRIEND_REQ, m)
    ensures |m.vals| == 7
    ensures m.vals[0].IntV? && m.vals[1].TextV? && m.vals[2].TextV? && m.vals[3].TextV?
    ensures m.vals[4].TextV? && m.vals[5].IntV? && m.vals[6].IntV?
  {
    var s := ADD_FRIEND_REQ;
    assert HasKind(s.fields[0], m.vals[0]) && HasKind(s.fields[1], m.vals[1]) && HasKind(s.fields[2], m.vals[2]);
    assert HasKind(s.fields[3], m.vals[3]) && HasKind(s.fields[4], m.vals[4]) && HasKind(s.fields[5], m.vals[5]);
    assert HasKind(s.fields[6], m.vals[6]);
  }

  /** The records the fields are written as, in number order. */
  lemma AddFriendReqWritten(m: Message)
    requires HasSchema(ADD_FRIEND_REQ, m)
    ensures |m.vals| == 7
    ensures m.vals[0].IntV? && m.vals[1].TextV? && m.vals[2].TextV? && m.vals[3].TextV?
    ensures m.vals[4].TextV? && m.vals[5].IntV? && m.vals[6].IntV?
    ensures Encode(ADD_FRIEND_REQ, m, false)
         == EncodeRecords(IntRecords(1, m.vals[0].i) + TextRecords(2, m.vals[1].s)
              + TextRecords(3, m.vals[2].s) + TextRecords(4, m.vals[3].s)
              + TextRecords(5, m.vals[4].s) + IntRecords(6, m.vals[5].i)
              + IntRecords(7, m.vals[6].i) + m.unknown)
  {
    var s := ADD_FRIEND_REQ;
    AddFriendReqKinds(m);
    assert FieldsTo(s, m, 0, false) == [];
    hide HasSchema, FieldsTo, FieldRecords, EncodeRecords, Extend64, IntRecords, BoolRecords, TextRecords;
    NextField(s, m, 0, false);
    NextField(s, m, 1, false);
    NextField(s, m, 2, false);
    NextField(s, m, 3, false);
    NextField(s, m, 4, false);
    NextField(s, m, 5, false);
    NextField(s, m, 6, false);
    assert FieldsTo(s, m, 1, false) == IntRecords(1, m.vals[0].i);
  }

  /** Which inputs are a RplyFriendReq, and what its fields then are, by their records alone. */
  lemma RplyFriendReqByRecords(b: seq<byte>)
    ensures Parse(RPLY_FRIEND_REQ, Default(RPLY_FRIEND_REQ), b).Done? <==>
      && Records(b).Some?
    ensures Parse(RPLY_FRIEND_REQ, Default(RPLY_FRIEND_REQ), b).Done? ==>
      var m, rs := Parse(RPLY_FRIEND_REQ, Default(RPLY_FRIEND_REQ), b).m, Records(b).value;
      && m.vals[0] == IntV(ToInt32(LastNumber(rs, 1, 0)))
      && m.vals[1] == BoolV(LastNumber(rs, 2, 0) != 0)
      && m.vals[2] == IntV(ToInt32(LastNumber(rs, 3, 0)))
      && m.unknown == Undeclared(rs, {1, 2, 3}, {})
  {
    hide Parse, ValidUtf8, ToInt32, ToInt64, LastNumber, LastBytes, Undeclared;
    var s := RPLY_FRIEND_REQ;
    MessageByRecords(s, b, {1, 2, 3}, {});
    if Records(b).Some? {
      var rs := Records(b).value;
      hide Records;
      assert FieldAccepts(s.fields[0], rs, 1);
      assert FieldAccepts(s.fields[1], rs, 2);
      assert FieldAccepts(s.fields[2], rs, 3);
    }
    if Parse(s, Default(s), b).Done? {
      var m, rs := Parse(s, Default(s), b).m, Records(b).value;
      assert FieldLaw(s.fields[0], m.vals[0], rs, 1);
      assert FieldLaw(s.fields[1], m.vals[1], rs, 2);
      assert FieldLaw(s.fields[2], m.vals[2], rs, 3);
    }
  }

  lemma RplyFriendReqKinds(m: Message)
    requires HasSchema(RPLY_FRIEND_REQ, m)
    ensures |m.vals| == 3
    ensures m.vals[0].IntV? && m.vals[1].BoolV? && m.vals[2].IntV?
  {
    var s := RPLY_FRIEND_REQ;
    assert HasKind(s.fields[0], m.vals[0]) && HasKind(s.fields[1], m.vals[1]) && HasKind(s.fields[2], m.vals[2]);
  }

  /** The records the fields are written as, in number order. */
  lemma RplyFriendReqWritten(m: Message)
    requires HasSchema(RPLY_FRIEND_REQ, m)
    ensures |m.vals| == 3
    ensures m.vals[0].IntV? && m.vals[1].BoolV? && m.vals[2].IntV?
    ensures Encode(RPLY_FRIEND_REQ, m, false)
         == EncodeRecords(IntRecords(1, m.vals[0].i) + BoolRecords(2, m.vals[1].b)
              + IntRecords(3, m.vals[2].i) + m.unknown)
  {
    var s := RPLY_FRIEND_REQ;
    RplyFriendReqKinds(m);
    assert FieldsTo(s, m, 0, false) == [];
    hide HasSchema, FieldsTo, FieldRecords, EncodeRecords, Extend64, IntRecords, BoolRecords, TextRecords;
    NextField(s, m, 0, false);
    NextField(s, m, 1, false);
    NextField(s, m, 2, false);
    assert FieldsTo(s, m, 1, false) == IntRecords(1, m.vals[0].i);
  }

  /** The answer to a friend request. */
  class RplyFriendReq {
    var rplyuid: int32
    var agree: bool
    var touid: int32
    var unknown: seq<Record>
    var cachedSize: int32

    /** The message this object holds; the cached size is no part of it. */
    ghost function Contents(): (m: Message)
      reads `rplyuid, `agree, `touid, `unknown
      ensures |m.vals| == 3
    {
      Message([IntV(rplyuid), BoolV(agree), IntV(touid)], unknown)
    }

    constructor ()
      ensures Contents() == Default(RPLY_FRIEND_REQ)
      ensures rplyuid == 0 && !agree && touid == 0 && unknown == []
    {
      rplyuid := 0;
      agree := false;
      touid := 0;
      unknown, cachedSize := [], 0;
      new;
      assert Contents().vals == Default(RPLY_FRIEND_REQ).vals;
    }

    /** The copy constructor: field by field. */
    constructor Copy(from: RplyFriendReq)
      ensures Contents() == from.Contents()
    {
      rplyuid := from.rplyuid;
      agree := from.agree;
      touid := from.touid;
      unknown, cachedSize := from.unknown, 0;
    }

    method Clear()
      modifies `rplyuid, `agree, `touid, `unknown
      ensures Contents() == Default(RPLY_FRIEND_REQ)
      ensures rplyuid == 0 && !agree && touid == 0 && unknown == []
    {
      rplyuid := 0;
      agree := false;
      touid := 0;
      unknown := [];
      assert Contents().vals == Default(RPLY_FRIEND_REQ).vals;
    }

    /** The switch over the declared fields. */
    method ParseDeclared(ctx: ParseContext, tag: uint32, start: nat, ghost before: Message, ghost window: seq<byte>)
      returns (known: bool, ok: bool, ptr: nat, ghost m: Message)
      requires ctx.Open(start) && window == ctx.Window(start) && Contents() == before
      modifies `rplyuid, `agree, `touid
      ensures Contents() == m
      ensures !known ==> ptr == start && m == before
      ensures !known ==> forall k | 0 <= k < 3 :: tag != FieldTag(RPLY_FRIEND_REQ, k)
      ensures known && ok ==> start < ptr <= ctx.limit
      ensures known ==>
        ParseField(RPLY_FRIEND_REQ, before, tag, window)
        == if ok then Parse(RPLY_FRIEND_REQ, m, ctx.Window(ptr)) else Failed
    {
      hide Parse, ParseField, TagIs, FieldTag;
      known, m := true, before;
      if TagIs(tag, 8) {
        ok, ptr, rplyuid := NextInt32(RPLY_FRIEND_REQ, before, 1, ctx, start);
        m := before.(vals := before.vals[0 := IntV(rplyuid)]);
        assert Contents().vals == m.vals;
      } else if TagIs(tag, 16) {
        ok, ptr, agree := NextBool(RPLY_FRIEND_REQ, before, 2, ctx, start);
        m := before.(vals := before.vals[1 := BoolV(agree)]);
        assert Contents().vals == m.vals;
      } else if TagIs(tag, 24) {
        ok, ptr, touid := NextInt32(RPLY_FRIEND_REQ, before, 3, ctx, start);
        m := before.(vals := before.vals[2 := IntV(touid)]);
        assert Contents().vals == m.vals;
      } else {
        RplyFriendReqTags(tag);
        known, ok, ptr := false, true, start;
      }
    }

    /** Parses a window on top of what the object holds. */
    method InternalParse(ctx: ParseContext, start: nat) returns (ok: bool, ptr: nat)
      requires ctx.Open(start) && ctx.EndedAtLimit()
      modifies `rplyuid, `agree, `touid, `unknown, ctx`lastTagMinus1
      ensures Shows(Parse(RPLY_FRIEND_REQ, old(Contents()), old(ctx.Window(start))), ok, ptr, ctx, Contents())
    {
      hide Parse, ParseField, IsStopTag, FieldTag;
      ghost var m := Contents();
      ghost var goal := Parse(RPLY_FRIEND_REQ, m, ctx.Window(start));
      ok, ptr := true, start;
      while ptr < ctx.limit
        invariant ok && ctx.Open(ptr) && ctx.EndedAtLimit()
        invariant Contents() == m && Parse(RPLY_FRIEND_REQ, m, ctx.Window(ptr)) == goal
        decreases ctx.limit - ptr
      {
        var tag, known;
        ok, ptr, tag := NextTag(RPLY_FRIEND_REQ, m, ctx, ptr);
        if !ok { return; }
        known, ok, ptr, m := ParseDeclared(ctx, tag, ptr, m, ctx.Window(ptr));
        if !known {
          if IsStopTag(tag) {
            AtStopTag(RPLY_FRIEND_REQ, m, tag, ctx.Window(ptr));
            ctx.SetLastTag(tag);
            return true, ptr;
          }
          var r;
          ok, ptr, r := NextUnknown(RPLY_FRIEND_REQ, m, tag, ctx, ptr);
          unknown, m := unknown + [r], m.(unknown := m.unknown + [r]);
        }
        if !ok { return; }
      }
      AtTheEnd(RPLY_FRIEND_REQ, m, ctx.Window(ptr));
    }

    /** Appends the message. */
    method InternalSerialize(target: seq<byte>) returns (out: seq<byte>)
      ensures out == target + Encode(RPLY_FRIEND_REQ, Contents(), false)
      ensures out == target + EncodeRecords(
        IntRecords(1, rplyuid) + BoolRecords(2, agree) + IntRecords(3, touid)
        + unknown)
    {
      hide FieldsTo, EncodeRecords, EncodeRecord, Encode, Extend64;
      ghost var m := Contents();
      NothingWritten(RPLY_FRIEND_REQ, m, target);
      out := target;
      out := PutInt32(RPLY_FRIEND_REQ, m, target, 1, rplyuid, out);
      out := PutBool(RPLY_FRIEND_REQ, m, target, 2, agree, out);
      out := PutInt32(RPLY_FRIEND_REQ, m, target, 3, touid, out);
      if unknown != [] { out := InternalSerializeUnknownFieldsToArray(unknown, out); }
      AllFieldsWritten(RPLY_FRIEND_REQ, m, target);
      RplyFriendReqIsTyped(this);
      RplyFriendReqWritten(m);
    }

    /** Computes the serialized size and remembers it. */
    method ByteSizeLong() returns (total: nat)
      modifies `cachedSize
      ensures total == |Encode(RPLY_FRIEND_REQ, Contents(), false)|
      ensures cachedSize == ToCachedSize(total)
    {
      hide CountInt32, CountBool, ScalarSize, RecordsSize, Encode, ToInt32;
      RplyFriendReqSize(Contents());
      total := 0;
      total := total + CountInt32(rplyuid);
      total := total + CountBool(agree);
      total := total + CountInt32(touid);
      if unknown != [] { total := ComputeUnknownFieldsSize(unknown, total); }
      cachedSize := ToCachedSize(total);
    }

    /** Takes over the other object's non-default fields and its unknown records. */
    method MergeFrom(from: RplyFriendReq)
      requires from != this
      modifies `rplyuid, `agree, `touid, `unknown
      ensures Contents() == Merge(old(Contents()), from.Contents())
    {
      hide MergeValue, MergeInt32, MergeBool;
      ghost var before, added := Contents(), from.Contents();
      unknown := unknown + from.unknown;
      rplyuid := MergeInt32(rplyuid, from.rplyuid);
      agree := MergeBool(agree, from.agree);
      touid := MergeInt32(touid, from.touid);
      MergeIs(before, added, Contents());
    }

    /** Makes the contents equal; copying from itself changes nothing. */
    method CopyFrom(from: RplyFriendReq)
      modifies `rplyuid, `agree, `touid, `unknown
      ensures Contents() == old(from.Contents())
    {
      if from == this { return; }
      Clear();
      MergeFrom(from);
      RplyFriendReqIsTyped(from);
      MergeIntoDefault(RPLY_FRIEND_REQ, from.Contents());
    }

    /** The runtime's entry point for reading a whole buffer. */
    method ParseFromBytes(b: seq<byte>) returns (ok: bool)
      modifies `rplyuid, `agree, `touid, `unknown
      ensures ok == Parse(RPLY_FRIEND_REQ, Default(RPLY_FRIEND_REQ), b).Done?
      ensures ok ==> Contents() == Parse(RPLY_FRIEND_REQ, Default(RPLY_FRIEND_REQ), b).m
      ensures ok <==>
        && Records(b).Some?
      ensures ok ==> var rs := Records(b).value;
        && rplyuid == ToInt32(LastNumber(rs, 1, 0))
        && agree == (LastNumber(rs, 2, 0) != 0)
        && touid == ToInt32(LastNumber(rs, 3, 0))
        && unknown == Undeclared(rs, {1, 2, 3}, {})
    {
      hide Parse, ValidUtf8, Records, LastNumber, LastBytes, Undeclared, ToInt32, ToInt64;
      RplyFriendReqByRecords(b);
      Clear();
      var ctx := new ParseContext(b);
      assert ctx.Window(0) == b;
      var ptr;
      ok, ptr := InternalParse(ctx, 0);
      ok := ok && ctx.lastTagMinus1 == 0;
    }

    /** The runtime's entry point for writing: measure first, then write, unless the size does not fit an int. */
    method SerializeToBytes() returns (ok: bool, out: seq<byte>)
      modifies `cachedSize
      ensures ok == (|Encode(RPLY_FRIEND_REQ, Contents(), false)| < POW31)
      ensures ok ==> out == Encode(RPLY_FRIEND_REQ, Contents(), false)
    {
      hide Encode;
      var size := ByteSizeLong();
      if size >= POW31 { return false, []; }
      ok := true;
      out := InternalSerialize([]);
    }
  }

  /** The fields of an object have the types its schema says. */
  lemma RplyFriendReqIsTyped(x: RplyFriendReq)
    ensures HasSchema(RPLY_FRIEND_REQ, x.Contents())
  {
  }

  /** Any other tag belongs to no field of the class. */
  lemma RplyFriendReqTags(tag: uint32)
    requires tag !in {8, 16, 24}
    ensures forall k | 0 <= k < 3 :: tag != FieldTag(RPLY_FRIEND_REQ, k)
  {}

  /** The size of a message is the sum over its fields. */
  lemma RplyFriendReqSize(m: Message)
    requires |m.vals| == 3 && forall k | 0 <= k < 3 :: !m.vals[k].ListV?
    ensures |Encode(RPLY_FRIEND_REQ, m, false)|
         == ScalarSize(m.vals[0]) + ScalarSize(m.vals[1]) + ScalarSize(m.vals[2])
          + RecordsSize(m.unknown)
    ensures m.unknown == [] ==> RecordsSize(m.unknown) == 0
  {
    hide FieldsSize, Encode, ScalarSize, RecordsSize;
    SizeCounted(RPLY_FRIEND_REQ, m);
    FieldCounted(RPLY_FRIEND_REQ, m, 0);
    FieldCounted(RPLY_FRIEND_REQ, m, 1);
    FieldCounted(RPLY_FRIEND_REQ, m, 2);
  }

  /** Which inputs are a NotifyChatImgReq, and what its fields then are, by their records alone. */
  lemma NotifyChatImgReqByRecords(b: seq<byte>)
    ensures Parse(NOTIFY_CHAT_IMG_REQ, Default(NOTIFY_CHAT_IMG_REQ), b).Done? <==>
      && Records(b).Some?
      && forall r | r in Records(b).value && r.payload.Bytes? && r.num == 4 ::
        ValidUtf8(r.payload.data)
    ensures Parse(NOTIFY_CHAT_IMG_REQ, Default(NOTIFY_CHAT_IMG_REQ), b).Done? ==>
      var m, rs := Parse(NOTIFY_CHAT_IMG_REQ, Default(NOTIFY_CHAT_IMG_REQ), b).m, Records(b).value;
      && m.vals[0] == IntV(ToInt32(LastNumber(rs, 1, 0)))
      && m.vals[1] == IntV(ToInt32(LastNumber(rs, 2, 0)))
      && m.vals[2] == IntV(ToInt32(LastNumber(rs, 3, 0)))
      && m.vals[3] == TextV(LastBytes(rs, 4, []))
      && m.vals[4] == IntV(ToInt64(LastNumber(rs, 5, 0)))
      && m.vals[5] == IntV(ToInt32(LastNumber(rs, 6, 0)))
      && m.unknown == Undeclared(rs, {1, 2, 3, 5, 6}, {4})
  {
    hide Parse, ValidUtf8, ToInt32, ToInt64, LastNumber, LastBytes, Undeclared;
    var s := NOTIFY_CHAT_IMG_REQ;
    MessageByRecords(s, b, {1, 2, 3, 5, 6}, {4});
    if Records(b).Some? {
      var rs := Records(b).value;
      hide Records;
      assert FieldAccepts(s.fields[0], rs, 1);
      assert FieldAccepts(s.fields[1], rs, 2);
      assert FieldAccepts(s.fields[2], rs, 3);
      assert FieldAccepts(s.fields[3], rs, 4) <==> FieldAccepts(Text, rs, 4);
      assert FieldAccepts(s.fields[4], rs, 5);
      assert FieldAccepts(s.fields[5], rs, 6);
    }
    if Parse(s, Default(s), b).Done? {
      var m, rs := Parse(s, Default(s), b).m, Records(b).value;
      assert FieldLaw(s.fields[0], m.vals[0], rs, 1);
      assert FieldLaw(s.fields[1], m.vals[1], rs, 2);
      assert FieldLaw(s.fields[2], m.vals[2], rs, 3);
      assert FieldLaw(s.fields[3], m.vals[3], rs, 4);
      assert FieldLaw(s.fields[4], m.vals[4], rs, 5);
      assert FieldLaw(s.fields[5], m.vals[5], rs, 6);
    }
  }

  lemma NotifyChatImgReqKinds(m: Message)
    requires HasSchema(NOTIFY_CHAT_IMG_REQ, m)
    ensures |m.vals| == 6
    ensures m.vals[0].IntV? && m.vals[1].IntV? && m.vals[2].IntV? && m.vals[3].TextV?
    ensures m.vals[4].IntV? && m.vals[5].IntV?
  {
    var s := NOTIFY_CHAT_IMG_REQ;
    assert HasKind(s.fields[0], m.vals[0]) && HasKind(s.fields[1], m.vals[1]) && HasKind(s.fields[2], m.vals[2]);
    assert HasKind(s.fields[3], m.vals[3]) && HasKind(s.fields[4], m.vals[4]) && HasKind(s.fields[5], m.vals[5]);
  }

  /** The records the fields are written as, in number order. */
  lemma NotifyChatImgReqWritten(m: Message)
    requires HasSchema(NOTIFY_CHAT_IMG_REQ, m)
    ensures |m.vals| == 6
    ensures m.vals[0].IntV? && m.vals[1].IntV? && m.vals[2].IntV? && m.vals[3].TextV?
    ensures m.vals[4].IntV? && m.vals[5].IntV?
    ensures Encode(NOTIFY_CHAT_IMG_REQ, m, false)
         == EncodeRecords(IntRecords(1, m.vals[0].i) + IntRecords(2, m.vals[1].i)
              + IntRecords(3, m.vals[2].i) + TextRecords(4, m.vals[3].s)
              + IntRecords(5, m.vals[4].i) + IntRecords(6, m.vals[5].i) + m.unknown)
  {
    var s := NOTIFY_CHAT_IMG_REQ;
    NotifyChatImgReqKinds(m);
    assert FieldsTo(s, m, 0, false) == [];
    hide HasSchema, FieldsTo, FieldRecords, EncodeRecords, Extend64, IntRecords, BoolRecords, TextRecords;
    NextField(s, m, 0, false);
    NextField(s, m, 1, false);
    NextField(s, m, 2, false);
    NextField(s, m, 3, false);
    NextField(s, m, 4, false);
    NextField(s, m, 5, false);
    assert FieldsTo(s, m, 1, false) == IntRecords(1, m.vals[0].i);
  }

  /** The notice that a chat image has arrived; its size is an int64. */
  class NotifyChatImgReq {
    var fromUid: int32
    var toUid: int32
    var messageId: int32
    var fileName: seq<byte>
    var totalSize: int64
    var threadId: int32
    var unknown: seq<Record>
    var cachedSize: int32

    /** The message this object holds; the cached size is no part of it. */
    ghost function Contents(): (m: Message)
      reads `fromUid, `toUid, `messageId, `fileName, `totalSize, `threadId, `unknown
      ensures |m.vals| == 6
    {
      Message([IntV(fromUid), IntV(toUid), IntV(messageId), TextV(fileName), IntV(totalSize), IntV(threadId)], unknown)
    }

    constructor ()
      ensures Contents() == Default(NOTIFY_CHAT_IMG_REQ)
      ensures fromUid == 0 && toUid == 0 && messageId == 0 && fileName == []
      ensures totalSize == 0 && threadId == 0 && unknown == []
    {
      fromUid := 0;
      toUid := 0;
      messageId := 0;
      fileName := [];
      totalSize := 0;
      threadId := 0;
      unknown, cachedSize := [], 0;
      new;
      assert Contents().vals == Default(NOTIFY_CHAT_IMG_REQ).vals;
    }

    /** The copy constructor: field by field. */
    constructor Copy(from: NotifyChatImgReq)
      ensures Contents() == from.Contents()
    {
      fromUid := from.fromUid;
      toUid := from.toUid;
      messageId := from.messageId;
      fileName := from.fileName;
      totalSize := from.totalSize;
      threadId := from.threadId;
      unknown, cachedSize := from.unknown, 0;
    }

    method Clear()
      modifies `fromUid, `toUid, `messageId, `fileName, `totalSize, `threadId, `unknown
      ensures Contents() == Default(NOTIFY_CHAT_IMG_REQ)
      ensures fromUid == 0 && toUid == 0 && messageId == 0 && fileName == []
      ensures totalSize == 0 && threadId == 0 && unknown == []
    {
      fileName := [];
      fromUid := 0;
      toUid := 0;
      messageId := 0;
      threadId := 0;
      totalSize := 0;
      unknown := [];
      assert Contents().vals == Default(NOTIFY_CHAT_IMG_REQ).vals;
    }

    /** The switch over the declared fields. */
    method ParseDeclared(ctx: ParseContext, tag: uint32, start: nat, ghost before: Message, ghost window: seq<byte>)
      returns (known: bool, ok: bool, ptr: nat, ghost m: Message)
      requires ctx.Open(start) && window == ctx.Window(start) && Contents() == before
      modifies `fromUid, `toUid, `messageId, `fileName, `totalSize, `threadId
      ensures Contents() == m
      ensures !known ==> ptr == start && m == before
      ensures !known ==> forall k | 0 <= k < 6 :: tag != FieldTag(NOTIFY_CHAT_IMG_REQ, k)
      ensures known && ok ==> start < ptr <= ctx.limit
      ensures known ==>
        ParseField(NOTIFY_CHAT_IMG_REQ, before, tag, window)
        == if ok then Parse(NOTIFY_CHAT_IMG_REQ, m, ctx.Window(ptr)) else Failed
    {
      hide Parse, ParseField, TagIs, FieldTag;
      known, m := true, before;
      if TagIs(tag, 8) {
        ok, ptr, fromUid := NextInt32(NOTIFY_CHAT_IMG_REQ, before, 1, ctx, start);
        m := before.(vals := before.vals[0 := IntV(fromUid)]);
        UpdateSix(before.vals, IntV(fromUid));
      } else if TagIs(tag, 16) {
        ok, ptr, toUid := NextInt32(NOTIFY_CHAT_IMG_REQ, before, 2, ctx, start);
        m := before.(vals := before.vals[1 := IntV(toUid)]);
        UpdateSix(before.vals, IntV(toUid));
      } else if TagIs(tag, 24) {
        ok, ptr, messageId := NextInt32(NOTIFY_CHAT_IMG_REQ, before, 3, ctx, start);
        m := before.(vals := before.vals[2 := IntV(messageId)]);
        UpdateSix(before.vals, IntV(messageId));
      } else if TagIs(tag, 34) {
        ok, ptr, fileName := NextText(NOTIFY_CHAT_IMG_REQ, before, 4, ctx, start);
        m := before.(vals := before.vals[3 := TextV(fileName)]);
        UpdateSix(before.vals, TextV(fileName));
      } else if TagIs(tag, 40) {
        ok, ptr, totalSize := NextInt64(NOTIFY_CHAT_IMG_REQ, before, 5, ctx, start);
        m := before.(vals := before.vals[4 := IntV(totalSize)]);
        UpdateSix(before.vals, IntV(totalSize));
      } else if TagIs(tag, 48) {
        ok, ptr, threadId := NextInt32(NOTIFY_CHAT_IMG_REQ, before, 6, ctx, start);
        m := before.(vals := before.vals[5 := IntV(threadId)]);
        UpdateSix(before.vals, IntV(threadId));
      } else {
        NotifyChatImgReqTags(tag);
        known, ok, ptr := false, true, start;
      }
      assert Contents() == m;
    }

    /** Parses a window on top of what the object holds. */
    method InternalParse(ctx: ParseContext, start: nat) returns (ok: bool, ptr: nat)
      requires ctx.Open(start) && ctx.EndedAtLimit()
      modifies `fromUid, `toUid, `messageId, `fileName, `totalSize, `threadId, `unknown, ctx`lastTagMinus1
      ensures Shows(Parse(NOTIFY_CHAT_IMG_REQ, old(Contents()), old(ctx.Window(start))), ok, ptr, ctx, Contents())
    {
      hide Parse, ParseField, IsStopTag, FieldTag;
      ghost var m := Contents();
      ghost var goal := Parse(NOTIFY_CHAT_IMG_REQ, m, ctx.Window(start));
      ok, ptr := true, start;
      while ptr < ctx.limit
        invariant ok && ctx.Open(ptr) && ctx.EndedAtLimit()
        invariant Contents() == m && Parse(NOTIFY_CHAT_IMG_REQ, m, ctx.Window(ptr)) == goal
        decreases ctx.limit - ptr
      {
        var tag, known;
        ok, ptr, tag := NextTag(NOTIFY_CHAT_IMG_REQ, m, ctx, ptr);
        if !ok { return; }
        known, ok, ptr, m := ParseDeclared(ctx, tag, ptr, m, ctx.Window(ptr));
        if !known {
          if IsStopTag(tag) {
            AtStopTag(NOTIFY_CHAT_IMG_REQ, m, tag, ctx.Window(ptr));
            ctx.SetLastTag(tag);
            return true, ptr;
          }
          var r;
          ok, ptr, r := NextUnknown(NOTIFY_CHAT_IMG_REQ, m, tag, ctx, ptr);
          unknown, m := unknown + [r], m.(unknown := m.unknown + [r]);
        }
        if !ok { return; }
      }
      AtTheEnd(NOTIFY_CHAT_IMG_REQ, m, ctx.Window(ptr));
    }

    /** Appends the message. */
    method InternalSerialize(target: seq<byte>) returns (out: seq<byte>)
      ensures out == target + Encode(NOTIFY_CHAT_IMG_REQ, Contents(), false)
      ensures out == target + EncodeRecords(
        IntRecords(1, fromUid) + IntRecords(2, toUid) + IntRecords(3, messageId)
        + TextRecords(4, fileName) + IntRecords(5, totalSize)
        + IntRecords(6, threadId) + unknown)
    {
      hide FieldsTo, EncodeRecords, EncodeRecord, Encode, Extend64;
      ghost var m := Contents();
      NothingWritten(NOTIFY_CHAT_IMG_REQ, m, target);
      out := target;
      out := PutInt32(NOTIFY_CHAT_IMG_REQ, m, target, 1, fromUid, out);
      out := PutInt32(NOTIFY_CHAT_IMG_REQ, m, target, 2, toUid, out);
      out := PutInt32(NOTIFY_CHAT_IMG_REQ, m, target, 3, messageId, out);
      out := PutText(NOTIFY_CHAT_IMG_REQ, m, target, 4, fileName, out);
      out := PutInt64(NOTIFY_CHAT_IMG_REQ, m, target, 5, totalSize, out);
      out := PutInt32(NOTIFY_CHAT_IMG_REQ, m, target, 6, threadId, out);
      if unknown != [] { out := InternalSerializeUnknownFieldsToArray(unknown, out); }
      AllFieldsWritten(NOTIFY_CHAT_IMG_REQ, m, target);
      NotifyChatImgReqIsTyped(this);
      NotifyChatImgReqWritten(m);
    }

    /** Computes the serialized size and remembers it. */
    method ByteSizeLong() returns (total: nat)
      modifies `cachedSize
      ensures total == |Encode(NOTIFY_CHAT_IMG_REQ, Contents(), false)|
      ensures cachedSize == ToCachedSize(total)
    {
      hide CountInt32, CountText, CountInt64, ScalarSize, RecordsSize, Encode, ToInt32;
      NotifyChatImgReqSize(Contents());
      total := 0;
      total := total + CountText(fileName);
      total := total + CountInt32(fromUid);
      total := total + CountInt32(toUid);
      total := total + CountInt32(messageId);
      total := total + CountInt32(threadId);
      total := total + CountInt64(totalSize);
      if unknown != [] { total := ComputeUnknownFieldsSize(unknown, total); }
      cachedSize := ToCachedSize(total);
    }

    /** Takes over the other object's non-default fields and its unknown records. */
    method MergeFrom(from: NotifyChatImgReq)
      requires from != this
      modifies `fromUid, `toUid, `messageId, `fileName, `totalSize, `threadId, `unknown
      ensures Contents() == Merge(old(Contents()), from.Contents())
    {
      hide MergeValue, MergeInt32, MergeText, MergeInt64;
      ghost var before, added := Contents(), from.Contents();
      unknown := unknown + from.unknown;
      fileName := MergeText(fileName, from.fileName);
      fromUid := MergeInt32(fromUid, from.fromUid);
      toUid := MergeInt32(toUid, from.toUid);
      messageId := MergeInt32(messageId, from.messageId);
      threadId := MergeInt32(threadId, from.threadId);
      totalSize := MergeInt64(totalSize, from.totalSize);
      MergeIs(before, added, Contents());
    }

    /** Makes the contents equal; copying from itself changes nothing. */
    method CopyFrom(from: NotifyChatImgReq)
      modifies `fromUid, `toUid, `messageId, `fileName, `totalSize, `threadId, `unknown
      ensures Contents() == old(from.Contents())
    {
      if from == this { return; }
      Clear();
      MergeFrom(from);
      NotifyChatImgReqIsTyped(from);
      MergeIntoDefault(NOTIFY_CHAT_IMG_REQ, from.Contents());
    }

    /** The runtime's entry point for reading a whole buffer. */
    method ParseFromBytes(b: seq<byte>) returns (ok: bool)
      modifies `fromUid, `toUid, `messageId, `fileName, `totalSize, `threadId, `unknown
      ensures ok == Parse(NOTIFY_CHAT_IMG_REQ, Default(NOTIFY_CHAT_IMG_REQ), b).Done?
      ensures ok ==> Contents() == Parse(NOTIFY_CHAT_IMG_REQ, Default(NOTIFY_CHAT_IMG_REQ), b).m
      ensures ok <==>
        && Records(b).Some?
        && forall r | r in Records(b).value && r.payload.Bytes? && r.num == 4 ::
          ValidUtf8(r.payload.data)
      ensures ok ==> var rs := Records(b).value;
        && fromUid == ToInt32(LastNumber(rs, 1, 0))
        && toUid == ToInt32(LastNumber(rs, 2, 0))
        && messageId == ToInt32(LastNumber(rs, 3, 0))
        && fileName == LastBytes(rs, 4, [])
        && totalSize == ToInt64(LastNumber(rs, 5, 0))
        && threadId == ToInt32(LastNumber(rs, 6, 0))
        && unknown == Undeclared(rs, {1, 2, 3, 5, 6}, {4})
    {
      hide Parse, ValidUtf8, Records, LastNumber, LastBytes, Undeclared, ToInt32, ToInt64;
      NotifyChatImgReqByRecords(b);
      Clear();
      var ctx := new ParseContext(b);
      assert ctx.Window(0) == b;
      var ptr;
      ok, ptr := InternalParse(ctx, 0);
      ok := ok && ctx.lastTagMinus1 == 0;
    }

    /** The runtime's entry point for writing: measure first, then write, unless the size does not fit an int. */
    method SerializeToBytes() returns (ok: bool, out: seq<byte>)
      modifies `cachedSize
      ensures ok == (|Encode(NOTIFY_CHAT_IMG_REQ, Contents(), false)| < POW31)
      ensures ok ==> out == Encode(NOTIFY_CHAT_IMG_REQ, Contents(), false)
    {
      hide Encode;
      var size := ByteSizeLong();
      if size >= POW31 { return false, []; }
      ok := true;
      out := InternalSerialize([]);
    }
  }

  /** The fields of an object have the types its schema says. */
  lemma NotifyChatImgReqIsTyped(x: NotifyChatImgReq)
    ensures HasSchema(NOTIFY_CHAT_IMG_REQ, x.Contents())
  {
  }

  /** Any other tag belongs to no field of the class. */
  lemma NotifyChatImgReqTags(tag: uint32)
    requires tag !in {8, 16, 24, 34, 40, 48}
    ensures forall k | 0 <= k < 6 :: tag != FieldTag(NOTIFY_CHAT_IMG_REQ, k)
  {}

  /** The size of a message is the sum over its fields. */
  lemma NotifyChatImgReqSize(m: Message)
    requires |m.vals| == 6 && forall k | 0 <= k < 6 :: !m.vals[k].ListV?
    ensures |Encode(NOTIFY_CHAT_IMG_REQ, m, false)|
         == ScalarSize(m.vals[0]) + ScalarSize(m.vals[1]) + ScalarSize(m.vals[2])
          + ScalarSize(m.vals[3]) + ScalarSize(m.vals[4]) + ScalarSize(m.vals[5])
          + RecordsSize(m.unknown)
    ensures m.unknown == [] ==> RecordsSize(m.unknown) == 0
  {
    hide FieldsSize, Encode, ScalarSize, RecordsSize;
    SizeCounted(NOTIFY_CHAT_IMG_REQ, m);
    FieldCounted(NOTIFY_CHAT_IMG_REQ, m, 0);
    FieldCounted(NOTIFY_CHAT_IMG_REQ, m, 1);
    FieldCounted(NOTIFY_CHAT_IMG_REQ, m, 2);
    FieldCounted(NOTIFY_CHAT_IMG_REQ, m, 3);
    FieldCounted(NOTIFY_CHAT_IMG_REQ, m, 4);
    FieldCounted(NOTIFY_CHAT_IMG_REQ, m, 5);
  }

  /** Which inputs are an AddFriendRsp, and what its fields then are, by their records alone. */
  lemma AddFriendRspByRecords(b: seq<byte>)
    ensures Parse(ADD_FRIEND_RSP, Default(ADD_FRIEND_RSP), b).Done? <==>
      && Records(b).Some?
    ensures Parse(ADD_FRIEND_RSP, Default(ADD_FRIEND_RSP), b).Done? ==>
      var m, rs := Parse(ADD_FRIEND_RSP, Default(ADD_FRIEND_RSP), b).m, Records(b).value;
      && m.vals[0] == IntV(ToInt32(LastNumber(rs, 1, 0)))
      && m.vals[1] == IntV(ToInt32(LastNumber(rs, 2, 0)))
      && m.vals[2] == IntV(ToInt32(LastNumber(rs, 3, 0)))
      && m.unknown == Undeclared(rs, {1, 2, 3}, {})
  {
    hide Parse, ValidUtf8, ToInt32, ToInt64, LastNumber, LastBytes, Undeclared;
    var s := ADD_FRIEND_RSP;
    MessageByRecords(s, b, {1, 2, 3}, {});
    if Records(b).Some? {
      var rs := Records(b).value;
      hide Records;
      assert FieldAccepts(s.fields[0], rs, 1);
      assert FieldAccepts(s.fields[1], rs, 2);
      assert FieldAccepts(s.fields[2], rs, 3);
    }
    if Parse(s, Default(s), b).Done? {
      var m, rs := Parse(s, Default(s), b).m, Records(b).value;
      assert FieldLaw(s.fields[0], m.vals[0], rs, 1);
      assert FieldLaw(s.fields[1], m.vals[1], rs, 2);
      assert FieldLaw(s.fields[2], m.vals[2], rs, 3);
    }
  }

  lemma AddFriendRspKinds(m: Message)
    requires HasSchema(ADD_FRIEND_RSP, m)
    ensures |m.vals| == 3
    ensures m.vals[0].IntV? && m.vals[1].IntV? && m.vals[2].IntV?
  {
    var s := ADD_FRIEND_RSP;
    assert HasKind(s.fields[0], m.vals[0]) && HasKind(s.fields[1], m.vals[1]) && HasKind(s.fields[2], m.vals[2]);
  }

  /** The records the fields are written as, in number order. */
  lemma AddFriendRspWritten(m: Message)
    requires HasSchema(ADD_FRIEND_RSP, m)
    ensures |m.vals| == 3
    ensures m.vals[0].IntV? && m.vals[1].IntV? && m.vals[2].IntV?
    ensures Encode(ADD_FRIEND_RSP, m, false)
         == EncodeRecords(IntRecords(1, m.vals[0].i) + IntRecords(2, m.vals[1].i)
              + IntRecords(3, m.vals[2].i) + m.unknown)
  {
    var s := ADD_FRIEND_RSP;
    AddFriendRspKinds(m);
    assert FieldsTo(s, m, 0, false) == [];
    hide HasSchema, FieldsTo, FieldRecords, EncodeRecords, Extend64, IntRecords, BoolRecords, TextRecords;
    NextField(s, m, 0, false);
    NextField(s, m, 1, false);
    NextField(s, m, 2, false);
    assert FieldsTo(s, m, 1, false) == IntRecords(1, m.vals[0].i);
  }

  /** The response to a friend request. */
  class AddFriendRsp {
    var error: int32
    var applyuid: int32
    var touid: int32
    var unknown: seq<Record>
    var cachedSize: int32

    /** The message this object holds; the cached size is no part of it. */
    ghost function Contents(): (m: Message)
      reads `error, `applyuid, `touid, `unknown
      ensures |m.vals| == 3
    {
      Message([IntV(error), IntV(applyuid), IntV(touid)], unknown)
    }

    constructor ()
      ensures Contents() == Default(ADD_FRIEND_RSP)
      ensures error == 0 && applyuid == 0 && touid == 0 && unknown == []
    {
      error := 0;
      applyuid := 0;
      touid := 0;
      unknown, cachedSize := [], 0;
      new;
      assert Contents().vals == Default(ADD_FRIEND_RSP).vals;
    }

    /** The copy constructor: field by field. */
    constructor Copy(from: AddFriendRsp)
      ensures Contents() == from.Contents()
    {
      error := from.error;
      applyuid := from.applyuid;
      touid := from.touid;
      unknown, cachedSize := from.unknown, 0;
    }

    method Clear()
      modifies `error, `applyuid, `touid, `unknown
      ensures Contents() == Default(ADD_FRIEND_RSP)
      ensures error == 0 && applyuid == 0 && touid == 0 && unknown == []
    {
      error := 0;
      applyuid := 0;
      touid := 0;
      unknown := [];
      assert Contents().vals == Default(ADD_FRIEND_RSP).vals;
    }

    /** The switch over the declared fields. */
    method ParseDeclared(ctx: ParseContext, tag: uint32, start: nat, ghost before: Message, ghost window: seq<byte>)
      returns (known: bool, ok: bool, ptr: nat, ghost m: Message)
      requires ctx.Open(start) && window == ctx.Window(start) && Contents() == before
      modifies `error, `applyuid, `touid
      ensures Contents() == m
      ensures !known ==> ptr == start && m == before
      ensures !known ==> forall k | 0 <= k < 3 :: tag != FieldTag(ADD_FRIEND_RSP, k)
      ensures known && ok ==> start < ptr <= ctx.limit
      ensures known ==>
        ParseField(ADD_FRIEND_RSP, before, tag, window)
        == if ok then Parse(ADD_FRIEND_RSP, m, ctx.Window(ptr)) else Failed
    {
      hide Parse, ParseField, TagIs, FieldTag;
      known, m := true, before;
      if TagIs(tag, 8) {
        ok, ptr, error := NextInt32(ADD_FRIEND_RSP, before, 1, ctx, start);
        m := before.(vals := before.vals[0 := IntV(error)]);
        assert Contents().vals == m.vals;
      } else if TagIs(tag, 16) {
        ok, ptr, applyuid := NextInt32(ADD_FRIEND_RSP, before, 2, ctx, start);
        m := before.(vals := before.vals[1 := IntV(applyuid)]);
        assert Contents().vals == m.vals;
      } else if TagIs(tag, 24) {
        ok, ptr, touid := NextInt32(ADD_FRIEND_RSP, before, 3, ctx, start);
        m := before.(vals := before.vals[2 := IntV(touid)]);
        assert Contents().vals == m.vals;
      } else {
        AddFriendRspTags(tag);
        known, ok, ptr := false, true, start;
      }
    }

    /** Parses a window on top of what the object holds. */
    method InternalParse(ctx: ParseContext, start: nat) returns (ok: bool, ptr: nat)
      requires ctx.Open(start) && ctx.EndedAtLimit()
      modifies `error, `applyuid, `touid, `unknown, ctx`lastTagMinus1
      ensures Shows(Parse(ADD_FRIEND_RSP, old(Contents()), old(ctx.Window(start))), ok, ptr, ctx, Contents())
    {
      hide Parse, ParseField, IsStopTag, FieldTag;
      ghost var m := Contents();
      ghost var goal := Parse(ADD_FRIEND_RSP, m, ctx.Window(start));
      ok, ptr := true, start;
      while ptr < ctx.limit
        invariant ok && ctx.Open(ptr) && ctx.EndedAtLimit()
        invariant Contents() == m && Parse(ADD_FRIEND_RSP, m, ctx.Window(ptr)) == goal
        decreases ctx.limit - ptr
      {
        var tag, known;
        ok, ptr, tag := NextTag(ADD_FRIEND_RSP, m, ctx, ptr);
        if !ok { return; }
        known, ok, ptr, m := ParseDeclared(ctx, tag, ptr, m, ctx.Window(ptr));
        if !known {
          if IsStopTag(tag) {
            AtStopTag(ADD_FRIEND_RSP, m, tag, ctx.Window(ptr));
            ctx.SetLastTag(tag);
            return true, ptr;
          }
          var r;
          ok, ptr, r := NextUnknown(ADD_FRIEND_RSP, m, tag, ctx, ptr);
          unknown, m := unknown + [r], m.(unknown := m.unknown + [r]);
        }
        if !ok { return; }
      }
      AtTheEnd(ADD_FRIEND_RSP, m, ctx.Window(ptr));
    }

    /** Appends the message. */
    method InternalSerialize(target: seq<byte>) returns (out: seq<byte>)
      ensures out == target + Encode(ADD_FRIEND_RSP, Contents(), false)
      ensures out == target + EncodeRecords(
        IntRecords(1, error) + IntRecords(2, applyuid) + IntRecords(3, touid)
        + unknown)
    {
      hide FieldsTo, EncodeRecords, EncodeRecord, Encode, Extend64;
      ghost var m := Contents();
      NothingWritten(ADD_FRIEND_RSP, m, target);
      out := target;
      out := PutInt32(ADD_FRIEND_RSP, m, target, 1, error, out);
      out := PutInt32(ADD_FRIEND_RSP, m, target, 2, applyuid, out);
      out := PutInt32(ADD_FRIEND_RSP, m, target, 3, touid, out);
      if unknown != [] { out := InternalSerializeUnknownFieldsToArray(unknown, out); }
      AllFieldsWritten(ADD_FRIEND_RSP, m, target);
      AddFriendRspIsTyped(this);
      AddFriendRspWritten(m);
    }

    /** Computes the serialized size and remembers it. */
    method ByteSizeLong() returns (total: nat)
      modifies `cachedSize
      ensures total == |Encode(ADD_FRIEND_RSP, Contents(), false)|
      ensures cachedSize == ToCachedSize(total)
    {
      hide CountInt32, ScalarSize, RecordsSize, Encode, ToInt32;
      AddFriendRspSize(Contents());
      total := 0;
      total := total + CountInt32(error);
      total := total + CountInt32(applyuid);
      total := total + CountInt32(touid);
      if unknown != [] { total := ComputeUnknownFieldsSize(unknown, total); }
      cachedSize := ToCachedSize(total);
    }

    /** Takes over the other object's non-default fields and its unknown records. */
    method MergeFrom(from: AddFriendRsp)
      requires from != this
      modifies `error, `applyuid, `touid, `unknown
      ensures Contents() == Merge(old(Contents()), from.Contents())
    {
      hide MergeValue, MergeInt32;
      ghost var before, added := Contents(), from.Contents();
      unknown := unknown + from.unknown;
      error := MergeInt32(error, from.error);
      applyuid := MergeInt32(applyuid, from.applyuid);
      touid := MergeInt32(touid, from.touid);
      MergeIs(before, added, Contents());
    }

    /** Makes the contents equal; copying from itself changes nothing. */
    method CopyFrom(from: AddFriendRsp)
      modifies `error, `applyuid, `touid, `unknown
      ensures Contents() == old(from.Contents())
    {
      if from == this { return; }
      Clear();
      MergeFrom(from);
      AddFriendRspIsTyped(from);
      MergeIntoDefault(ADD_FRIEND_RSP, from.Contents());
    }

    /** The runtime's entry point for reading a whole buffer. */
    method ParseFromBytes(b: seq<byte>) returns (ok: bool)
      modifies `error, `applyuid, `touid, `unknown
      ensures ok == Parse(ADD_FRIEND_RSP, Default(ADD_FRIEND_RSP), b).Done?
      ensures ok ==> Contents() == Parse(ADD_FRIEND_RSP, Default(ADD_FRIEND_RSP), b).m
      ensures ok <==>
        && Records(b).Some?
      ensures ok ==> var rs := Records(b).value;
        && error == ToInt32(LastNumber(rs, 1, 0))
        && applyuid == ToInt32(LastNumber(rs, 2, 0))
        && touid == ToInt32(LastNumber(rs, 3, 0))
        && unknown == Undeclared(rs, {1, 2, 3}, {})
    {
      hide Parse, ValidUtf8, Records, LastNumber, LastBytes, Undeclared, ToInt32, ToInt64;
      AddFriendRspByRecords(b);
      Clear();
      var ctx := new ParseContext(b);
      assert ctx.Window(0) == b;
      var ptr;
      ok, ptr := InternalParse(ctx, 0);
      ok := ok && ctx.lastTagMinus1 == 0;
    }

    /** The runtime's entry point for writing: measure first, then write, unless the size does not fit an int. */
    method SerializeToBytes() returns (ok: bool, out: seq<byte>)
      modifies `cachedSize
      ensures ok == (|Encode(ADD_FRIEND_RSP, Contents(), false)| < POW31)
      ensures ok ==> out == Encode(ADD_FRIEND_RSP, Contents(), false)
    {
      hide Encode;
      var size := ByteSizeLong();
      if size >= POW31 { return false, []; }
      ok := true;
      out := InternalSerialize([]);
    }
  }

  /** The fields of an object have the types its schema says. */
  lemma AddFriendRspIsTyped(x: AddFriendRsp)
    ensures HasSchema(ADD_FRIEND_RSP, x.Contents())
  {
  }

  /** Any other tag belongs to no field of the class. */
  lemma AddFriendRspTags(tag: uint32)
    requires tag !in {8, 16, 24}
    ensures forall k | 0 <= k < 3 :: tag != FieldTag(ADD_FRIEND_RSP, k)
  {}

  /** The size of a message is the sum over its fields. */
  lemma AddFriendRspSize(m: Message)
    requires |m.vals| == 3 && forall k | 0 <= k < 3 :: !m.vals[k].ListV?
    ensures |Encode(ADD_FRIEND_RSP, m, false)|
         == ScalarSize(m.vals[0]) + ScalarSize(m.vals[1]) + ScalarSize(m.vals[2])
          + RecordsSize(m.unknown)
    ensures m.unknown == [] ==> RecordsSize(m.unknown) == 0
  {
    hide FieldsSize, Encode, ScalarSize, RecordsSize;
    SizeCounted(ADD_FRIEND_RSP, m);
    FieldCounted(ADD_FRIEND_RSP, m, 0);
    FieldCounted(ADD_FRIEND_RSP, m, 1);
    FieldCounted(ADD_FRIEND_RSP, m, 2);
  }

  /** Which inputs are a LoginReq, and what its fields then are, by their records alone. */
  lemma LoginReqByRecords(b: seq<byte>)
    ensures Parse(LOGIN_REQ, Default(LOGIN_REQ), b).Done? <==>
      && Records(b).Some?
      && forall r | r in Records(b).value && r.payload.Bytes? && r.num == 2 ::
        ValidUtf8(r.payload.data)
    ensures Parse(LOGIN_REQ, Default(LOGIN_REQ), b).Done? ==>
      var m, rs := Parse(LOGIN_REQ, Default(LOGIN_REQ), b).m, Records(b).value;
      && m.vals[0] == IntV(ToInt32(LastNumber(rs, 1, 0)))
      && m.vals[1] == TextV(LastBytes(rs, 2, []))
      && m.unknown == Undeclared(rs, {1}, {2})
  {
    hide Parse, ValidUtf8, ToInt32, ToInt64, LastNumber, LastBytes, Undeclared;
    var s := LOGIN_REQ;
    MessageByRecords(s, b, {1}, {2});
    if Records(b).Some? {
      var rs := Records(b).value;
      hide Records;
      assert FieldAccepts(s.fields[0], rs, 1);
      assert FieldAccepts(s.fields[1], rs, 2) <==> FieldAccepts(Text, rs, 2);
    }
    if Parse(s, Default(s), b).Done? {
      var m, rs := Parse(s, Default(s), b).m, Records(b).value;
      assert FieldLaw(s.fields[0], m.vals[0], rs, 1);
      assert FieldLaw(s.fields[1], m.vals[1], rs, 2);
    }
  }

  lemma LoginReqKinds(m: Message)
    requires HasSchema(LOGIN_REQ, m)
    ensures |m.vals| == 2
    ensures m.vals[0].IntV? && m.vals[1].TextV?
  {
    var s := LOGIN_REQ;
    assert HasKind(s.fields[0], m.vals[0]) && HasKind(s.fields[1], m.vals[1]);
  }

  /** The records the fields are written as, in number order. */
  lemma LoginReqWritten(m: Message)
    requires HasSchema(LOGIN_REQ, m)
    ensures |m.vals| == 2
    ensures m.vals[0].IntV? && m.vals[1].TextV?
    ensures Encode(LOGIN_REQ, m, false)
         == EncodeRecords(IntRecords(1, m.vals[0].i) + TextRecords(2, m.vals[1].s) + m.unknown)
  {
    var s := LOGIN_REQ;
    LoginReqKinds(m);
    assert FieldsTo(s, m, 0, false) == [];
    hide HasSchema, FieldsTo, FieldRecords, EncodeRecords, Extend64, IntRecords, BoolRecords, TextRecords;
    NextField(s, m, 0, false);
    NextField(s, m, 1, false);
    assert FieldsTo(s, m, 1, false) == IntRecords(1, m.vals[0].i);
  }

  /** The request to log in with a token. */
  class LoginReq {
    var uid: int32
    var token: seq<byte>
    var unknown: seq<Record>
    var cachedSize: int32

    /** The message this object holds; the cached size is no part of it. */
    ghost function Contents(): (m: Message)
      reads `uid, `token, `unknown
      ensures |m.vals| == 2
    {
      Message([IntV(uid), TextV(token)], unknown)
    }

    constructor ()
      ensures Contents() == Default(LOGIN_REQ)
      ensures uid == 0 && token == [] && unknown == []
    {
      uid := 0;
      token := [];
      unknown, cachedSize := [], 0;
      new;
      assert Contents().vals == Default(LOGIN_REQ).vals;
    }

    /** The copy constructor: field by field. */
    constructor Copy(from: LoginReq)
      ensures Contents() == from.Contents()
    {
      uid := from.uid;
      token := from.token;
      unknown, cachedSize := from.unknown, 0;
    }

    method Clear()
      modifies `uid, `token, `unknown
      ensures Contents() == Default(LOGIN_REQ)
      ensures uid == 0 && token == [] && unknown == []
    {
      token := [];
      uid := 0;
      unknown := [];
      assert Contents().vals == Default(LOGIN_REQ).vals;
    }

    /** The switch over the declared fields. */
    method ParseDeclared(ctx: ParseContext, tag: uint32, start: nat, ghost before: Message, ghost window: seq<byte>)
      returns (known: bool, ok: bool, ptr: nat, ghost m: Message)
      requires ctx.Open(start) && window == ctx.Window(start) && Contents() == before
      modifies `uid, `token
      ensures Contents() == m
      ensures !known ==> ptr == start && m == before
      ensures !known ==> forall k | 0 <= k < 2 :: tag != FieldTag(LOGIN_REQ, k)
      ensures known && ok ==> start < ptr <= ctx.limit
      ensures known ==>
        ParseField(LOGIN_REQ, before, tag, window)
        == if ok then Parse(LOGIN_REQ, m, ctx.Window(ptr)) else Failed
    {
      hide Parse, ParseField, TagIs, FieldTag;
      known, m := true, before;
      if TagIs(tag, 8) {
        ok, ptr, uid := NextInt32(LOGIN_REQ, before, 1, ctx, start);
        m := before.(vals := before.vals[0 := IntV(uid)]);
        assert Contents().vals == m.vals;
      } else if TagIs(tag, 18) {
        ok, ptr, token := NextText(LOGIN_REQ, before, 2, ctx, start);
        m := before.(vals := before.vals[1 := TextV(token)]);
        assert Contents().vals == m.vals;
      } else {
        LoginReqTags(tag);
        known, ok, ptr := false, true, start;
      }
    }

    /** Parses a window on top of what the object holds. */
    method InternalParse(ctx: ParseContext, start: nat) returns (ok: bool, ptr: nat)
      requires ctx.Open(start) && ctx.EndedAtLimit()
      modifies `uid, `token, `unknown, ctx`lastTagMinus1
      ensures Shows(Parse(LOGIN_REQ, old(Contents()), old(ctx.Window(start))), ok, ptr, ctx, Contents())
    {
      hide Parse, ParseField, IsStopTag, FieldTag;
      ghost var m := Contents();
      ghost var goal := Parse(LOGIN_REQ, m, ctx.Window(start));
      ok, ptr := true, start;
      while ptr < ctx.limit
        invariant ok && ctx.Open(ptr) && ctx.EndedAtLimit()
        invariant Contents() == m && Parse(LOGIN_REQ, m, ctx.Window(ptr)) == goal
        decreases ctx.limit - ptr
      {
        var tag, known;
        ok, ptr, tag := NextTag(LOGIN_REQ, m, ctx, ptr);
        if !ok { return; }
        known, ok, ptr, m := ParseDeclared(ctx, tag, ptr, m, ctx.Window(ptr));
        if !known {
          if IsStopTag(tag) {
            AtStopTag(LOGIN_REQ, m, tag, ctx.Window(ptr));
            ctx.SetLastTag(tag);
            return true, ptr;
          }
          var r;
          ok, ptr, r := NextUnknown(LOGIN_REQ, m, tag, ctx, ptr);
          unknown, m := unknown + [r], m.(unknown := m.unknown + [r]);
        }
        if !ok { return; }
      }
      AtTheEnd(LOGIN_REQ, m, ctx.Window(ptr));
    }

    /** Appends the message. */
    method InternalSerialize(target: seq<byte>) returns (out: seq<byte>)
      ensures out == target + Encode(LOGIN_REQ, Contents(), false)
      ensures out == target + EncodeRecords(
        IntRecords(1, uid) + TextRecords(2, token) + unknown)
    {
      hide FieldsTo, EncodeRecords, EncodeRecord, Encode, Extend64;
      ghost var m := Contents();
      NothingWritten(LOGIN_REQ, m, target);
      out := target;
      out := PutInt32(LOGIN_REQ, m, target, 1, uid, out);
      out := PutText(LOGIN_REQ, m, target, 2, token, out);
      if unknown != [] { out := InternalSerializeUnknownFieldsToArray(unknown, out); }
      AllFieldsWritten(LOGIN_REQ, m, target);
      LoginReqIsTyped(this);
      LoginReqWritten(m);
    }

    /** Computes the serialized size and remembers it. */
    method ByteSizeLong() returns (total: nat)
      modifies `cachedSize
      ensures total == |Encode(LOGIN_REQ, Contents(), false)|
      ensures cachedSize == ToCachedSize(total)
    {
      hide CountInt32, CountText, ScalarSize, RecordsSize, Encode, ToInt32;
      LoginReqSize(Contents());
      total := 0;
      total := total + CountText(token);
      total := total + CountInt32(uid);
      if unknown != [] { total := ComputeUnknownFieldsSize(unknown, total); }
      cachedSize := ToCachedSize(total);
    }

    /** Takes over the other object's non-default fields and its unknown records. */
    method MergeFrom(from: LoginReq)
      requires from != this
      modifies `uid, `token, `unknown
      ensures Contents() == Merge(old(Contents()), from.Contents())
    {
      hide MergeValue, MergeInt32, MergeText;
      ghost var before, added := Contents(), from.Contents();
      unknown := unknown + from.unknown;
      token := MergeText(token, from.token);
      uid := MergeInt32(uid, from.uid);
      MergeIs(before, added, Contents());
    }

    /** Makes the contents equal; copying from itself changes nothing. */
    method CopyFrom(from: LoginReq)
      modifies `uid, `token, `unknown
      ensures Contents() == old(from.Contents())
    {
      if from == this { return; }
      Clear();
      MergeFrom(from);
      LoginReqIsTyped(from);
      MergeIntoDefault(LOGIN_REQ, from.Contents());
    }

    /** The runtime's entry point for reading a whole buffer. */
    method ParseFromBytes(b: seq<byte>) returns (ok: bool)
      modifies `uid, `token, `unknown
      ensures ok == Parse(LOGIN_REQ, Default(LOGIN_REQ), b).Done?
      ensures ok ==> Contents() == Parse(LOGIN_REQ, Default(LOGIN_REQ), b).m
      ensures ok <==>
        && Records(b).Some?
        && forall r | r in Records(b).value && r.payload.Bytes? && r.num == 2 ::
          ValidUtf8(r.payload.data)
      ensures ok ==> var rs := Records(b).value;
        && uid == ToInt32(LastNumber(rs, 1, 0))
        && token == LastBytes(rs, 2, [])
        && unknown == Undeclared(rs, {1}, {2})
    {
      hide Parse, ValidUtf8, Records, LastNumber, LastBytes, Undeclared, ToInt32, ToInt64;
      LoginReqByRecords(b);
      Clear();
      var ctx := new ParseContext(b);
      assert ctx.Window(0) == b;
      var ptr;
      ok, ptr := InternalParse(ctx, 0);
      ok := ok && ctx.lastTagMinus1 == 0;
    }

    /** The runtime's entry point for writing: measure first, then write, unless the size does not fit an int. */
    method SerializeToBytes() returns (ok: bool, out: seq<byte>)
      modifies `cachedSize
      ensures ok == (|Encode(LOGIN_REQ, Contents(), false)| < POW31)
      ensures ok ==> out == Encode(LOGIN_REQ, Contents(), false)
    {
      hide Encode;
      var size := ByteSizeLong();
      if size >= POW31 { return false, []; }
      ok := true;
      out := InternalSerialize([]);
    }
  }

  /** The fields of an object have the types its schema says. */
  lemma LoginReqIsTyped(x: LoginReq)
    ensures HasSchema(LOGIN_REQ, x.Contents())
  {
  }

  /** Any other tag belongs to no field of the class. */
  lemma LoginReqTags(tag: uint32)
    requires tag !in {8, 18}
    ensures forall k | 0 <= k < 2 :: tag != FieldTag(LOGIN_REQ, k)
  {}

  /** The size of a message is the sum over its fields. */
  lemma LoginReqSize(m: Message)
    requires |m.vals| == 2 && forall k | 0 <= k < 2 :: !m.vals[k].ListV?
    ensures |Encode(LOGIN_REQ, m, false)|
         == ScalarSize(m.vals[0]) + ScalarSize(m.vals[1])
          + RecordsSize(m.unknown)
    ensures m.unknown == [] ==> RecordsSize(m.unknown) == 0
  {
    hide FieldsSize, Encode, ScalarSize, RecordsSize;
    SizeCounted(LOGIN_REQ, m);
    FieldCounted(LOGIN_REQ, m, 0);
    FieldCounted(LOGIN_REQ, m, 1);
  }

  /** Which inputs are a KickUserReq, and what its fields then are, by their records alone. */
  lemma KickUserReqByRecords(b: seq<byte>)
    ensures Parse(KICK_USER_REQ, Default(KICK_USER_REQ), b).Done? <==>
      && Records(b).Some?
    ensures Parse(KICK_USER_REQ, Default(KICK_USER_REQ), b).Done? ==>
      var m, rs := Parse(KICK_USER_REQ, Default(KICK_USER_REQ), b).m, Records(b).value;
      && m.vals[0] == IntV(ToInt32(LastNumber(rs, 1, 0)))
      && m.unknown == Undeclared(rs, {1}, {})
  {
    hide Parse, ValidUtf8, ToInt32, ToInt64, LastNumber, LastBytes, Undeclared;
    var s := KICK_USER_REQ;
    MessageByRecords(s, b, {1}, {});
    if Records(b).Some? {
      var rs := Records(b).value;
      hide Records;
      assert FieldAccepts(s.fields[0], rs, 1);
    }
    if Parse(s, Default(s), b).Done? {
      var m, rs := Parse(s, Default(s), b).m, Records(b).value;
      assert FieldLaw(s.fields[0], m.vals[0], rs, 1);
    }
  }

  lemma KickUserReqKinds(m: Message)
    requires HasSchema(KICK_USER_REQ, m)
    ensures |m.vals| == 1
    ensures m.vals[0].IntV?
  {
    var s := KICK_USER_REQ;
    assert HasKind(s.fields[0], m.vals[0]);
  }

  /** The records the fields are written as, in number order. */
  lemma KickUserReqWritten(m: Message)
    requires HasSchema(KICK_USER_REQ, m)
    ensures |m.vals| == 1
    ensures m.vals[0].IntV?
    ensures Encode(KICK_USER_REQ, m, false)
         == EncodeRecords(IntRecords(1, m.vals[0].i) + m.unknown)
  {
    var s := KICK_USER_REQ;
    KickUserReqKinds(m);
    assert FieldsTo(s, m, 0, false) == [];
    hide HasSchema, FieldsTo, FieldRecords, EncodeRecords, Extend64, IntRecords, BoolRecords, TextRecords;
    NextField(s, m, 0, false);
    assert FieldsTo(s, m, 1, false) == IntRecords(1, m.vals[0].i);
  }

  /** The request to log a user out. */
  class KickUserReq {
    var uid: int32
    var unknown: seq<Record>
    var cachedSize: int32

    /** The message this object holds; the cached size is no part of it. */
    ghost function Contents(): (m: Message)
      reads `uid, `unknown
      ensures |m.vals| == 1
    {
      Message([IntV(uid)], unknown)
    }

    constructor ()
      ensures Contents() == Default(KICK_USER_REQ)
      ensures uid == 0 && unknown == []
    {
      uid := 0;
      unknown, cachedSize := [], 0;
      new;
      assert Contents().vals == Default(KICK_USER_REQ).vals;
    }

    /** The copy constructor: field by field. */
    constructor Copy(from: KickUserReq)
      ensures Contents() == from.Contents()
    {
      uid := from.uid;
      unknown, cachedSize := from.unknown, 0;
    }

    method Clear()
      modifies `uid, `unknown
      ensures Contents() == Default(KICK_USER_REQ)
      ensures uid == 0 && unknown == []
    {
      uid := 0;
      unknown := [];
      assert Contents().vals == Default(KICK_USER_REQ).vals;
    }

    /** The switch over the declared fields. */
    method ParseDeclared(ctx: ParseContext, tag: uint32, start: nat, ghost before: Message, ghost window: seq<byte>)
      returns (known: bool, ok: bool, ptr: nat, ghost m: Message)
      requires ctx.Open(start) && window == ctx.Window(start) && Contents() == before
      modifies `uid
      ensures Contents() == m
      ensures !known ==> ptr == start && m == before
      ensures !known ==> forall k | 0 <= k < 1 :: tag != FieldTag(KICK_USER_REQ, k)
      ensures known && ok ==> start < ptr <= ctx.limit
      ensures known ==>
        ParseField(KICK_USER_REQ, before, tag, window)
        == if ok then Parse(KICK_USER_REQ, m, ctx.Window(ptr)) else Failed
    {
      hide Parse, ParseField, TagIs, FieldTag;
      known, m := true, before;
      if TagIs(tag, 8) {
        ok, ptr, uid := NextInt32(KICK_USER_REQ, before, 1, ctx, start);
        m := before.(vals := before.vals[0 := IntV(uid)]);
        assert Contents().vals == m.vals;
      } else {
        KickUserReqTags(tag);
        known, ok, ptr := false, true, start;
      }
    }

    /** Parses a window on top of what the object holds. */
    method InternalParse(ctx: ParseContext, start: nat) returns (ok: bool, ptr: nat)
      requires ctx.Open(start) && ctx.EndedAtLimit()
      modifies `uid, `unknown, ctx`lastTagMinus1
      ensures Shows(Parse(KICK_USER_REQ, old(Contents()), old(ctx.Window(start))), ok, ptr, ctx, Contents())
    {
      hide Parse, ParseField, IsStopTag, FieldTag;
      ghost var m := Contents();
      ghost var goal := Parse(KICK_USER_REQ, m, ctx.Window(start));
      ok, ptr := true, start;
      while ptr < ctx.limit
        invariant ok && ctx.Open(ptr) && ctx.EndedAtLimit()
        invariant Contents() == m && Parse(KICK_USER_REQ, m, ctx.Window(ptr)) == goal
        decreases ctx.limit - ptr
      {
        var tag, known;
        ok, ptr, tag := NextTag(KICK_USER_REQ, m, ctx, ptr);
        if !ok { return; }
        known, ok, ptr, m := ParseDeclared(ctx, tag, ptr, m, ctx.Window(ptr));
        if !known {
          if IsStopTag(tag) {
            AtStopTag(KICK_USER_REQ, m, tag, ctx.Window(ptr));
            ctx.SetLastTag(tag);
            return true, ptr;
          }
          var r;
          ok, ptr, r := NextUnknown(KICK_USER_REQ, m, tag, ctx, ptr);
          unknown, m := unknown + [r], m.(unknown := m.unknown + [r]);
        }
        if !ok { return; }
      }
      AtTheEnd(KICK_USER_REQ, m, ctx.Window(ptr));
    }

    /** Appends the message. */
    method InternalSerialize(target: seq<byte>) returns (out: seq<byte>)
      ensures out == target + Encode(KICK_USER_REQ, Contents(), false)
      ensures out == target + EncodeRecords(
        IntRecords(1, uid) + unknown)
    {
      hide FieldsTo, EncodeRecords, EncodeRecord, Encode, Extend64;
      ghost var m := Contents();
      NothingWritten(KICK_USER_REQ, m, target);
      out := target;
      out := PutInt32(KICK_USER_REQ, m, target, 1, uid, out);
      if unknown != [] { out := InternalSerializeUnknownFieldsToArray(unknown, out); }
      AllFieldsWritten(KICK_USER_REQ, m, target);
      KickUserReqIsTyped(this);
      KickUserReqWritten(m);
    }

    /** Computes the serialized size and remembers it. */
    method ByteSizeLong() returns (total: nat)
      modifies `cachedSize
      ensures total == |Encode(KICK_USER_REQ, Contents(), false)|
      ensures cachedSize == ToCachedSize(total)
    {
      hide CountInt32, ScalarSize, RecordsSize, Encode, ToInt32;
      KickUserReqSize(Contents());
      total := 0;
      total := total + CountInt32(uid);
      if unknown != [] { total := ComputeUnknownFieldsSize(unknown, total); }
      cachedSize := ToCachedSize(total);
    }

    /** Takes over the other object's non-default fields and its unknown records. */
    method MergeFrom(from: KickUserReq)
      requires from != this
      modifies `uid, `unknown
      ensures Contents() == Merge(old(Contents()), from.Contents())
    {
      hide MergeValue, MergeInt32;
      ghost var before, added := Contents(), from.Contents();
      unknown := unknown + from.unknown;
      uid := MergeInt32(uid, from.uid);
      MergeIs(before, added, Contents());
    }

    /** Makes the contents equal; copying from itself changes nothing. */
    method CopyFrom(from: KickUserReq)
      modifies `uid, `unknown
      ensures Contents() == old(from.Contents())
    {
      if from == this { return; }
      Clear();
      MergeFrom(from);
      KickUserReqIsTyped(from);
      MergeIntoDefault(KICK_USER_REQ, from.Contents());
    }

    /** The runtime's entry point for reading a whole buffer. */
    method ParseFromBytes(b: seq<byte>) returns (ok: bool)
      modifies `uid, `unknown
      ensures ok == Parse(KICK_USER_REQ, Default(KICK_USER_REQ), b).Done?
      ensures ok ==> Contents() == Parse(KICK_USER_REQ, Default(KICK_USER_REQ), b).m
      ensures ok <==>
        && Records(b).Some?
      ensures ok ==> var rs := Records(b).value;
        && uid == ToInt32(LastNumber(rs, 1, 0))
        && unknown == Undeclared(rs, {1}, {})
    {
      hide Parse, ValidUtf8, Records, LastNumber, LastBytes, Undeclared, ToInt32, ToInt64;
      KickUserReqByRecords(b);
      Clear();
      var ctx := new ParseContext(b);
      assert ctx.Window(0) == b;
      var ptr;
      ok, ptr := InternalParse(ctx, 0);
      ok := ok && ctx.lastTagMinus1 == 0;
    }

    /** The runtime's entry point for writing: measure first, then write, unless the size does not fit an int. */
    method SerializeToBytes() returns (ok: bool, out: seq<byte>)
      modifies `cachedSize
      ensures ok == (|Encode(KICK_USER_REQ, Contents(), false)| < POW31)
      ensures ok ==> out == Encode(KICK_USER_REQ, Contents(), false)
    {
      hide Encode;
      var size := ByteSizeLong();
      if size >= POW31 { return false, []; }
      ok := true;
      out := InternalSerialize([]);
    }
  }

  /** The fields of an object have the types its schema says. */
  lemma KickUserReqIsTyped(x: KickUserReq)
    ensures HasSchema(KICK_USER_REQ, x.Contents())
  {
  }

  /** Any other tag belongs to no field of the class. */
  lemma KickUserReqTags(tag: uint32)
    requires tag !in {8}
    ensures forall k | 0 <= k < 1 :: tag != FieldTag(KICK_USER_REQ, k)
  {}

  /** The size of a message is the sum over its fields. */
  lemma KickUserReqSize(m: Message)
    requires |m.vals| == 1 && forall k | 0 <= k < 1 :: !m.vals[k].ListV?
    ensures |Encode(KICK_USER_REQ, m, false)|
         == ScalarSize(m.vals[0])
          + RecordsSize(m.unknown)
    ensures m.unknown == [] ==> RecordsSize(m.unknown) == 0
  {
    hide FieldsSize, Encode, ScalarSize, RecordsSize;
    SizeCounted(KICK_USER_REQ, m);
    FieldCounted(KICK_USER_REQ, m, 0);
  }
}
