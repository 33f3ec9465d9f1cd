/** The schemas of the message classes: the kind of field k is at index k - 1. */
module Schemas {
  import opened Codec
  import opened Slots
  import opened RoundTrip

  const LOGIN_REQ := Schema([Int32, Text])
  const KICK_USER_REQ := Schema([Int32])
  const ADD_FRIEND_REQ := Schema([Int32, Text, Text, Text, Text, Int32, Int32])
  const ADD_FRIEND_RSP := Schema([Int32, Int32, Int32])
  const RPLY_FRIEND_REQ := Schema([Int32, Bool, Int32])
  const ADD_FRIEND_MSG := Schema([Int32, Text, Int32, Int32, Text, Int32])
  const AUTH_FRIEND_REQ := Schema([Int32, Int32, Repeated(ADD_FRIEND_MSG)])
  const TEXT_CHAT_DATA := Schema([Text, Int32, Text, Text])
  const TEXT_CHAT_MSG_REQ := Schema([Int32, Int32, Int32, Repeated(TEXT_CHAT_DATA)])
  const TEXT_CHAT_MSG_RSP := Schema([Int32, Int32, Int32, Int32, Repeated(TEXT_CHAT_DATA)])
  const NOTIFY_CHAT_IMG_REQ := Schema([Int32, Int32, Int32, Text, Int64, Int32])

  lemma SchemasAreLegal()
    ensures Legal(LOGIN_REQ) && Legal(KICK_USER_REQ) && Legal(ADD_FRIEND_REQ) && Legal(ADD_FRIEND_RSP)
    ensures Legal(RPLY_FRIEND_REQ) && Legal(ADD_FRIEND_MSG) && Legal(AUTH_FRIEND_REQ)
    ensures Legal(TEXT_CHAT_DATA) && Legal(TEXT_CHAT_MSG_REQ) && Legal(TEXT_CHAT_MSG_RSP)
    ensures Legal(NOTIFY_CHAT_IMG_REQ)
  {
    assert LegalKind(Repeated(ADD_FRIEND_MSG)) && LegalKind(Repeated(TEXT_CHAT_DATA));
  }

  /** KickUserReq declares the first field of LoginReq, AddFriendRsp the first three of TextChatMsgReq. */
  lemma OlderSchemas()
    ensures Extends(LOGIN_REQ, KICK_USER_REQ) && Extends(TEXT_CHAT_MSG_REQ, ADD_FRIEND_RSP)
    ensures Childless(KICK_USER_REQ) && Childless(ADD_FRIEND_RSP)
  {}
}
