/**
 Whole exchanges between objects: a message sent and received, and one passed on by a reader
 that knows fewer of its fields.
 */
module Exchange {
  import opened Wire
  import opened Codec
  import opened RoundTrip
  import opened Compatibility
  import opened Schemas
  import opened AuthFriend
  import opened TextChat
  import opened FlatMessages
  import opened RecordLaws
  import opened Utf8

  method SendAuthFriendReq(m: AuthFriendReq) returns (ok: bool, received: AuthFriendReq)
    requires WellFormed(AUTH_FRIEND_REQ, m.Contents())
    modifies m`cachedSize, m.textmsgs`cachedSize
    ensures ok == (|Encode(AUTH_FRIEND_REQ, old(m.Contents()), false)| < POW31)
    ensures ok ==> fresh(received) && received.Contents() == old(m.Contents())
  {
    hide Parse, Encode, WellFormed;
    hide Records, LastNumber, Undeclared, ToInt32, ValidUtf8, EncodeRecords, IntRecords;
    hide AllBytes, AddFriendMsgs, AddFriendMsgRecords, AddFriendMsg.Holds;
    ghost var contents := m.Contents();
    SchemasAreLegal();
    Restored(AUTH_FRIEND_REQ, contents);
    received := new AuthFriendReq();
    var b;
    ok, b := m.SerializeToBytes();
    if ok { ok := received.ParseFromBytes(b); }
  }

  method SendTextChatMsgReq(m: TextChatMsgReq) returns (ok: bool, received: TextChatMsgReq)
    requires WellFormed(TEXT_CHAT_MSG_REQ, m.Contents())
    modifies m`cachedSize, m.textmsgs`cachedSize
    ensures ok == (|Encode(TEXT_CHAT_MSG_REQ, old(m.Contents()), false)| < POW31)
    ensures ok ==> fresh(received) && received.Contents() == old(m.Contents())
  {
    hide Parse, Encode, WellFormed;
    hide Records, LastNumber, Undeclared, ToInt32, ValidUtf8, EncodeRecords, IntRecords;
    hide AllBytes, TextChatDatas, TextChatDataRecords, TextChatData.Holds;
    ghost var contents := m.Contents();
    SchemasAreLegal();
    Restored(TEXT_CHAT_MSG_REQ, contents);
    received := new TextChatMsgReq();
    var b;
    ok, b := m.SerializeToBytes();
    if ok { ok := received.ParseFromBytes(b); }
  }

  method SendTextChatMsgRsp(m: TextChatMsgRsp) returns (ok: bool, received: TextChatMsgRsp)
    requires WellFormed(TEXT_CHAT_MSG_RSP, m.Contents())
    modifies m`cachedSize, m.textmsgs`cachedSize
    ensures ok == (|Encode(TEXT_CHAT_MSG_RSP, old(m.Contents()), false)| < POW31)
    ensures ok ==> fresh(received) && received.Contents() == old(m.Contents())
  {
    hide Parse, Encode, WellFormed;
    hide Records, LastNumber, Undeclared, ToInt32, ValidUtf8, EncodeRecords, IntRecords;
    hide AllBytes, TextChatDatas, TextChatDataRecords, TextChatData.Holds;
    ghost var contents := m.Contents();
    SchemasAreLegal();
    Restored(TEXT_CHAT_MSG_RSP, contents);
    received := new TextChatMsgRsp();
    var b;
    ok, b := m.SerializeToBytes();
    if ok { ok := received.ParseFromBytes(b); }
  }

  lemma Restored(s: Schema, m: Message)
    requires Legal(s) && WellFormed(s, m)
    ensures Parse(s, Default(s), Encode(s, m, false)) == Done(m)
  {
    DefaultIsWellFormed(s, false);
    MessageReadBack(s, Default(s), m, false);
    MergeIntoDefault(s, m);
  }

  // ----- A LoginReq through a KickUserReq -----

  /** Every accepted LoginReq input still means the same after a KickUserReq, whatever its size. */
  lemma KickUserReqPassesLoginReq(b: seq<byte>)
    requires Parse(LOGIN_REQ, Default(LOGIN_REQ), b).Done?
    ensures Parse(KICK_USER_REQ, Default(KICK_USER_REQ), b).Done?
    ensures var x := Parse(KICK_USER_REQ, Default(KICK_USER_REQ), b).m;
      var s := LOGIN_REQ;
      Parse(s, Default(s), Encode(KICK_USER_REQ, x, false)) == Parse(s, Default(s), b)
  {
    hide Parse, Encode;
    SchemasAreLegal();
    OlderSchemas();
    ChildlessPassThrough(KICK_USER_REQ, LOGIN_REQ, b);
  }

  method RelayLoginReqBytes(b: seq<byte>) returns (ok: bool, out: seq<byte>)
    ensures var o := Parse(KICK_USER_REQ, Default(KICK_USER_REQ), b);
      && ok == (o.Done? && |Encode(KICK_USER_REQ, o.m, false)| < POW31)
      && (ok ==> out == Encode(KICK_USER_REQ, o.m, false))
    ensures var o := Parse(LOGIN_REQ, Default(LOGIN_REQ), b);
      ok && o.Done? ==> Parse(LOGIN_REQ, Default(LOGIN_REQ), out) == o
  {
    hide Parse, Encode;
    ghost var accepted := Parse(LOGIN_REQ, Default(LOGIN_REQ), b).Done?;
    if accepted { KickUserReqPassesLoginReq(b); }
    var older := new KickUserReq();
    ok := older.ParseFromBytes(b);
    out := [];
    if ok { ok, out := older.SerializeToBytes(); }
  }

  /** A LoginReq object sent, relayed by a KickUserReq object, and received. */
  method RelayLoginReq(m: LoginReq) returns (ok: bool, received: LoginReq)
    requires WellFormed(LOGIN_REQ, m.Contents())
    modifies m`cachedSize
    ensures ok == (|Encode(LOGIN_REQ, old(m.Contents()), false)| < POW31)
    ensures ok ==> fresh(received) && received.Contents() == old(m.Contents())
  {
    hide Parse, Encode, WellFormed;
    hide Records, LastNumber, Undeclared, ToInt32, ValidUtf8, EncodeRecords, IntRecords;
    ghost var contents := m.Contents();
    SchemasAreLegal();
    OlderSchemas();
    Restored(LOGIN_REQ, contents);
    CanonicalBytesPassUnchanged(KICK_USER_REQ, LOGIN_REQ, contents);
    received := new LoginReq();
    var b;
    ok, b := m.SerializeToBytes();
    if ok { ok, b := RelayLoginReqBytes(b); }
    if ok { ok := received.ParseFromBytes(b); }
  }

  // ----- A TextChatMsgReq through an AddFriendRsp -----

  /** Every accepted TextChatMsgReq input still means the same after an AddFriendRsp, whatever its size. */
  lemma AddFriendRspPassesTextChatMsgReq(b: seq<byte>)
    requires Parse(TEXT_CHAT_MSG_REQ, Default(TEXT_CHAT_MSG_REQ), b).Done?
    ensures Parse(ADD_FRIEND_RSP, Default(ADD_FRIEND_RSP), b).Done?
    ensures var x := Parse(ADD_FRIEND_RSP, Default(ADD_FRIEND_RSP), b).m;
      var s := TEXT_CHAT_MSG_REQ;
      Parse(s, Default(s), Encode(ADD_FRIEND_RSP, x, false)) == Parse(s, Default(s), b)
  {
    hide Parse, Encode;
    SchemasAreLegal();
    OlderSchemas();
    ChildlessPassThrough(ADD_FRIEND_RSP, TEXT_CHAT_MSG_REQ, b);
  }

  method RelayTextChatMsgReqBytes(b: seq<byte>) returns (ok: bool, out: seq<byte>)
    ensures var o := Parse(ADD_FRIEND_RSP, Default(ADD_FRIEND_RSP), b);
      && ok == (o.Done? && |Encode(ADD_FRIEND_RSP, o.m, false)| < POW31)
      && (ok ==> out == Encode(ADD_FRIEND_RSP, o.m, false))
    ensures var o := Parse(TEXT_CHAT_MSG_REQ, Default(TEXT_CHAT_MSG_REQ), b);
      ok && o.Done? ==> Parse(TEXT_CHAT_MSG_REQ, Default(TEXT_CHAT_MSG_REQ), out) == o
  {
    hide Parse, Encode;
    ghost var accepted := Parse(TEXT_CHAT_MSG_REQ, Default(TEXT_CHAT_MSG_REQ), b).Done?;
    if accepted { AddFriendRspPassesTextChatMsgReq(b); }
    var older := new AddFriendRsp();
    ok := older.ParseFromBytes(b);
    out := [];
    if ok { ok, out := older.SerializeToBytes(); }
  }

  /** A TextChatMsgReq object sent, relayed by an AddFriendRsp object, and received. */
  method RelayTextChatMsgReq(m: TextChatMsgReq) returns (ok: bool, received: TextChatMsgReq)
    requires WellFormed(TEXT_CHAT_MSG_REQ, m.Contents())
    modifies m`cachedSize, m.textmsgs`cachedSize
    ensures ok == (|Encode(TEXT_CHAT_MSG_REQ, old(m.Contents()), false)| < POW31)
    ensures ok ==> fresh(received) && received.Contents() == old(m.Contents())
  {
    hide Parse, Encode, WellFormed;
    hide Records, LastNumber, Undeclared, ToInt32, ValidUtf8, EncodeRecords, IntRecords;
    hide AllBytes, TextChatDatas, TextChatDataRecords, TextChatData.Holds;
    ghost var contents := m.Contents();
    SchemasAreLegal();
    OlderSchemas();
    Restored(TEXT_CHAT_MSG_REQ, contents);
    CanonicalBytesPassUnchanged(ADD_FRIEND_RSP, TEXT_CHAT_MSG_REQ, contents);
    received := new TextChatMsgReq();
    var b;
    ok, b := m.SerializeToBytes();
    if ok { ok, b := RelayTextChatMsgReqBytes(b); }
    if ok { ok := received.ParseFromBytes(b); }
  }
}
