/**
 Inputs on which a law one might expect of the codec fails. Each is on the wrong side of the
 condition that the exact statement of that law gives.
 */
module Limits {
  import opened Wire
  import opened Codec
  import opened RoundTrip
  import opened Bounds
  import opened Widths
  import opened Compatibility
  import opened Schemas
  import Library
  import opened ParseSteps
  import opened WriteSteps

  /** Minus one in five bytes is accepted, but written again in ten. */
  lemma NegativeIsWrittenLong()
    ensures var b := [0x08, 0xFF, 0xFF, 0xFF, 0xFF, 0x0F];
      && Parse(KICK_USER_REQ, Default(KICK_USER_REQ), b) == Done(Message([IntV(-1)], []))
      && |Encode(KICK_USER_REQ, Message([IntV(-1)], []), false)| == 11 > |b|
  {
    hide Encode;
    var d, m := Default(KICK_USER_REQ), Message([IntV(-1)], []);
    var v: seq<byte> := [0xFF, 0xFF, 0xFF, 0xFF, 0x0F];
    FiveBytes();
    OneNumber(KICK_USER_REQ, d, [0x08] + v, v, 0xFFFF_FFFF);
    assert [0x08] + v == [0x08, 0xFF, 0xFF, 0xFF, 0xFF, 0x0F];
    assert d.vals[0 := IntV(-1)] == m.vals;
    NegativeAlone();
  }

  lemma FiveBytes()
    ensures ReadVarint64([0xFF, 0xFF, 0xFF, 0xFF, 0x0F]) == Got(0xFFFF_FFFF, [])
  {}

  lemma NegativeAlone()
    ensures |Encode(KICK_USER_REQ, Message([IntV(-1)], []), false)| == 11
  {}

  /** Field 1 of a message, alone. */
  lemma OneNumber(s: Schema, m: Message, b: seq<byte>, v: seq<byte>, n: uint64)
    requires |s.fields| == |m.vals| > 0 && s.fields[0] == Int32
    requires b == [0x08] + v && ReadVarint64(v) == Got(n, [])
    ensures Parse(s, m, b) == Done(m.(vals := m.vals[0 := IntV(ToInt32(n))]))
  {
    assert b[1..] == v;
    assert ReadVarint(b, 5) == Got(8, v);
    ParseStep(s, m, b);
    assert ReadRecord(b) == Got(Record(1, Number(n)), []);
  }

  /** An explicit zero after a five: the parser ends with zero, MergeFrom keeps the five. */
  lemma ResetIsNotMerge()
    ensures var five, zero := [0x08, 0x05], [0x08, 0x00];
      && Parse(KICK_USER_REQ, Default(KICK_USER_REQ), five) == Done(Message([IntV(5)], []))
      && Parse(KICK_USER_REQ, Default(KICK_USER_REQ), zero) == Done(Message([IntV(0)], []))
      && Parse(KICK_USER_REQ, Message([IntV(5)], []), zero) == Done(Message([IntV(0)], []))
      && Merge(Message([IntV(5)], []), Message([IntV(0)], [])) == Message([IntV(5)], [])
  {
    var d := Default(KICK_USER_REQ);
    OneNumber(KICK_USER_REQ, d, [0x08, 0x05], [0x05], 5);
    OneNumber(KICK_USER_REQ, d, [0x08, 0x00], [0x00], 0);
    OneNumber(KICK_USER_REQ, Message([IntV(5)], []), [0x08, 0x00], [0x00], 0);
    assert d.vals[0 := IntV(5)] == [IntV(5)] && d.vals[0 := IntV(0)] == [IntV(0)];
    assert [IntV(5)][0 := IntV(0)] == [IntV(0)];
    assert Merge(Message([IntV(5)], []), Message([IntV(0)], [])).vals == [IntV(5)];
  }

  /** A token that is not UTF-8 is written; LoginReq refuses those bytes, KickUserReq keeps the field as unknown. */
  lemma InvalidTextIsWritten()
    ensures var m, b := Message([IntV(0), TextV([0xFF])], []), [0x12, 0x01, 0xFF];
      && Encode(LOGIN_REQ, m, false) == b
      && !Parse(LOGIN_REQ, Default(LOGIN_REQ), b).Done?
      && Parse(KICK_USER_REQ, Default(KICK_USER_REQ), b) == Done(Message([IntV(0)], [Record(2, Bytes([0xFF]))]))
  {
    var m, r := Message([IntV(0), TextV([0xFF])], []), Record(2, Bytes([0xFF]));
    TokenAlone(m, r);
    EncodedToken(r);
    hide *;
    TokenIsRefused(r);
    TokenIsKept(r);
  }

  lemma TokenIsRefused(r: Record)
    requires r == Record(2, Bytes([0xFF]))
    ensures !Parse(LOGIN_REQ, Default(LOGIN_REQ), EncodeRecord(r)).Done?
  {
    hide Parse, EncodeRecord, ReadRecord;
    RecordReadBack(r, []);
    assert EncodeRecord(r) + [] == EncodeRecord(r) != [];
    ParseStep(LOGIN_REQ, Default(LOGIN_REQ), EncodeRecord(r));
  }

  lemma TokenIsKept(r: Record)
    requires r == Record(2, Bytes([0xFF]))
    ensures Parse(KICK_USER_REQ, Default(KICK_USER_REQ), EncodeRecord(r)) == Done(Message([IntV(0)], [r]))
  {
    hide Parse, EncodeRecord, ReadRecord;
    RecordReadBack(r, []);
    assert EncodeRecord(r) + [] == EncodeRecord(r) != [];
    ParseStep(KICK_USER_REQ, Default(KICK_USER_REQ), EncodeRecord(r));
    AtTheEnd(KICK_USER_REQ, Message([IntV(0)], [r]), []);
    var d := Default(KICK_USER_REQ);
    assert d.vals == [IntV(0)] && d.unknown + [r] == [r];
  }

  lemma TokenAlone(m: Message, r: Record)
    requires m == Message([IntV(0), TextV([0xFF])], []) && r == Record(2, Bytes([0xFF]))
    ensures Encode(LOGIN_REQ, m, false) == EncodeRecord(r)
  {
    assert FieldsTo(LOGIN_REQ, m, 0, false) == [];
    assert ToRecords(LOGIN_REQ, m, false) == [r];
    EncodeOne(r);
  }

  lemma EncodedToken(r: Record)
    requires r == Record(2, Bytes([0xFF]))
    ensures EncodeRecord(r) == [0x12, 0x01, 0xFF]
  {}

  /** A child that just fits when its negative status takes five bytes, and does not when it takes ten. */
  ghost function LargeChild(): (c: Message)
    ensures |c.vals| == 6
  {
    Message([IntV(0), TextV([]), IntV(0), IntV(0), TextV([]), IntV(-1)],
            [Record(7, Bytes(seq(MAX_SIZE - 12, _ => 0)))])
  }

  lemma LargeChildSize(short: bool)
    ensures Size(ADD_FRIEND_MSG, LargeChild(), short) == if short then MAX_SIZE else MAX_SIZE + 5
  {
    hide VarintSize, FieldRecords, ToRecords, FieldsSize;
    var s, c := ADD_FRIEND_MSG, LargeChild();
    var q := c.unknown[0];
    SizeAdds(s, c, short);
    LargeChildFields(c, short);
    assert c.unknown == [q];
    SizeOne(q);
    FiveBytePrefix(MAX_SIZE - 12);
    Library.OneByte(q.Tag());
  }

  lemma FiveBytePrefix(n: nat)
    requires 0x1000_0000 <= n < POW32
    ensures VarintSize(n) == 5
  {
    Powers();
    WordSizes(n);
    SizeAtLeast(n, 5);
  }

  /** The five default fields take nothing, the status six bytes or eleven. */
  lemma LargeChildFields(c: Message, short: bool)
    requires c == LargeChild()
    ensures FieldsSize(ADD_FRIEND_MSG, c, 6, short) == if short then 6 else 11
  {
    var s, r := ADD_FRIEND_MSG, Record(6, Number(Widen(-1, Int32, short)));
    assert FieldRecords(6, Int32, IntV(-1), short) == [r];
    DefaultFieldsAreFree(s, c, 5, short);
    hide VarintSize, FieldRecords, Low32, Extend64;
    SizeOne(r);
    NegativeWidth(-1);
    Library.OneByte(r.Tag());
  }

  lemma {:induction false} DefaultFieldsAreFree(s: Schema, m: Message, n: nat, short: bool)
    requires n <= |s.fields| == |m.vals| && forall k | 0 <= k < n :: m.vals[k] == DefaultValue(s.fields[k])
    ensures FieldsSize(s, m, n, short) == 0
  {
    if n > 0 {
      hide FieldRecords, DefaultValue;
      DefaultFieldIsSkipped(n, s.fields[n - 1], short);
      DefaultFieldsAreFree(s, m, n - 1, short);
    }
  }

  lemma LargeChildIsClean()
    ensures Clean(ADD_FRIEND_MSG, LargeChild()) && Fits(ADD_FRIEND_MSG, LargeChild(), true)
  {}

  /** The length of a message that holds one child and nothing else. */
  lemma ChildAlone(m: Message, c: Message, short: bool)
    requires m == Message([IntV(0), IntV(0), ListV([c])], [])
    requires 0x1000_0000 <= Size(ADD_FRIEND_MSG, c, short) < POW32
    ensures |Encode(AUTH_FRIEND_REQ, m, short)| == 6 + Size(ADD_FRIEND_MSG, c, short)
  {
    hide FieldRecords, FieldsSize, Encode, Size, RecordsSize, RecordSize;
    OneChildSize(m, c, short);
    FramedChildSize(c, short);
    SizeIsLength(AUTH_FRIEND_REQ, m, short);
    SizeAdds(AUTH_FRIEND_REQ, m, short);
    SizeNone();
  }

  lemma OneChildSize(m: Message, c: Message, short: bool)
    requires m == Message([IntV(0), IntV(0), ListV([c])], [])
    ensures FieldsSize(AUTH_FRIEND_REQ, m, 3, short)
         == RecordSize(Record(3, Bytes(Encode(ADD_FRIEND_MSG, c, short))))
  {
    hide FieldRecords, Encode, RecordSize;
    OneChildRecord(m, c, short);
    DefaultFieldsAreFree(AUTH_FRIEND_REQ, m, 2, short);
    SizeOne(Record(3, Bytes(Encode(ADD_FRIEND_MSG, c, short))));
  }

  lemma FramedChildSize(c: Message, short: bool)
    requires 0x1000_0000 <= Size(ADD_FRIEND_MSG, c, short) < POW32
    ensures RecordSize(Record(3, Bytes(Encode(ADD_FRIEND_MSG, c, short)))) == 6 + Size(ADD_FRIEND_MSG, c, short)
  {
    hide Encode, Size, VarintSize;
    SizeIsLength(ADD_FRIEND_MSG, c, short);
    FiveBytePrefix(Size(ADD_FRIEND_MSG, c, short));
    Library.OneByte(3 * 8 + 2);
  }

  lemma OneChildRecord(m: Message, c: Message, short: bool)
    requires m == Message([IntV(0), IntV(0), ListV([c])], [])
    ensures FieldRecords(3, AUTH_FRIEND_REQ.fields[2], m.vals[2], short)
         == [Record(3, Bytes(Encode(ADD_FRIEND_MSG, c, short)))]
  {
    hide Encode;
    assert [c][1..] == [];
    assert ChildRecords(3, ADD_FRIEND_MSG, [], short) == [];
  }

  /**
   An input that a buffer can hold and an output that the code writes, but cannot read: rewriting
   makes the input's child too long.
   */
  lemma LargeInputIsNotIdempotent() returns (b: seq<byte>)
    ensures |b| == MAX_SIZE + 6 < POW31
    ensures Parse(AUTH_FRIEND_REQ, Default(AUTH_FRIEND_REQ), b).Done?
    ensures var s := AUTH_FRIEND_REQ;
      var m := Parse(s, Default(s), b).m;
      |Encode(s, m, false)| == MAX_SIZE + 11 < POW31 && Parse(s, Default(s), Encode(s, m, false)) != Done(m)
  {
    hide Encode, Parse, LargeChild, Merge, Default, Size;
    var s, c := AUTH_FRIEND_REQ, LargeChild();
    var m := Message([IntV(0), IntV(0), ListV([c])], []);
    SchemasAreLegal();
    LargeChildIsClean();
    LargeChildSize(true);
    LargeChildSize(false);
    SizeIsLength(ADD_FRIEND_MSG, c, true);
    SizeIsLength(ADD_FRIEND_MSG, c, false);
    CleanAround(m, c);
    ChildAlone(m, c, true);
    ChildAlone(m, c, false);
    b := Encode(s, m, true);
    DefaultIsWellFormed(s, true);
    MessageReadBack(s, Default(s), m, true);
    MergeIntoDefault(s, m);
    NormalisationIsIdempotent(s, b);
  }

  lemma CleanAround(m: Message, c: Message)
    requires m == Message([IntV(0), IntV(0), ListV([c])], [])
    requires Clean(ADD_FRIEND_MSG, c) && Fits(ADD_FRIEND_MSG, c, true)
    requires |Encode(ADD_FRIEND_MSG, c, true)| <= MAX_SIZE < |Encode(ADD_FRIEND_MSG, c, false)|
    ensures Clean(AUTH_FRIEND_REQ, m) && Fits(AUTH_FRIEND_REQ, m, true) && !Fits(AUTH_FRIEND_REQ, m, false)
  {
    hide Encode;
    var s, k := AUTH_FRIEND_REQ, Repeated(ADD_FRIEND_MSG);
    assert s.fields[2] == k && s.fields == [Int32, Int32, k];
    assert c in m.vals[2].items;
    assert HasKind(k, m.vals[2]) && CleanValue(k, m.vals[2]) && FitsValue(k, m.vals[2], true);
    assert !FitsValue(s.fields[2], m.vals[2], false);
    assert HasSchema(s, m);
    assert Fits(s, m, true);
  }
}
