/**
 Sequences of calls on several objects of a class: the objects go through exactly the messages that
 the same calls give on values.
 */
module Histories {
  import opened Codec
  import opened RoundTrip
  import opened Merging
  import opened Schemas
  import opened Library
  import opened AuthFriend

  /** One call, by the method of that name; the source is only used by MergeFrom and CopyFrom. */
  method CallOn(target: AuthFriendReq, source: AuthFriendReq, call: Call) returns (ok: bool)
    requires call.MergeFrom? ==> source != target
    modifies target
    ensures match call
      case ParseInto(_, b) =>
        (match Parse(AUTH_FRIEND_REQ, old(target.Contents()), b)
         case Done(m) => ok && target.Contents() == m
         case Stopped(m, _, _) => ok && target.Contents() == m
         case Failed => !ok)
      case Clear(_) => ok && target.Contents() == Default(AUTH_FRIEND_REQ)
      case MergeFrom(_, _) => ok && target.Contents() == Merge(old(target.Contents()), old(source.Contents()))
      case CopyFrom(_, _) => ok && target.Contents() == old(source.Contents())
  {
    hide Parse, AddFriendMsgs;
    ok := true;
    match call
    case ParseInto(_, b) =>
      var ctx := new ParseContext(b);
      assert ctx.Window(0) == b;
      var ptr;
      ok, ptr := target.InternalParse(ctx, 0);
    case Clear(_) => target.Clear();
    case MergeFrom(_, _) => target.MergeFrom(source);
    case CopyFrom(_, _) => target.CopyFrom(source);
  }

  /** One call on one of several objects; false when it fails or is not allowed. */
  method RunCall(objects: seq<AuthFriendReq>, call: Call, ghost ms: seq<Message>) returns (ok: bool)
    requires forall i, j | 0 <= i < j < |objects| :: objects[i] != objects[j]
    requires |objects| == |ms| && forall k | 0 <= k < |ms| :: |ms[k].vals| == 3 && objects[k].Contents() == ms[k]
    modifies objects
    ensures ok == After(AUTH_FRIEND_REQ, ms, call).Some?
    ensures ok ==> var ms' := After(AUTH_FRIEND_REQ, ms, call).value;
      |ms'| == |ms| && forall k | 0 <= k < |ms| :: |ms'[k].vals| == 3 && objects[k].Contents() == ms'[k]
  {
    hide Parse, AddFriendMsgs, Merge;
    var d := call.dst;
    if d >= |objects| { return false; }
    var source := objects[d];
    if call.MergeFrom? || call.CopyFrom? {
      if call.src >= |objects| || (call.MergeFrom? && call.src == d) { return false; }
      source := objects[call.src];
      AuthFriendReqIsTyped(source);
      MergeIntoDefault(AUTH_FRIEND_REQ, ms[call.src]);
    }
    ok := CallOn(objects[d], source, call);
    assert forall k | 0 <= k < |ms| && k != d :: objects[k].Contents() == ms[k];
  }

  method RunCalls(objects: seq<AuthFriendReq>, calls: seq<Call>, ghost before: seq<Message>) returns (ok: bool)
    requires forall i, j | 0 <= i < j < |objects| :: objects[i] != objects[j]
    requires |objects| == |before|
    requires forall k | 0 <= k < |before| :: |before[k].vals| == 3 && objects[k].Contents() == before[k]
    modifies objects
    ensures ok == AfterAll(AUTH_FRIEND_REQ, before, calls).Some?
    ensures ok ==> var ms := AfterAll(AUTH_FRIEND_REQ, before, calls).value;
      |ms| == |objects| && forall k | 0 <= k < |ms| :: objects[k].Contents() == ms[k]
  {
    hide After, AddFriendMsgs;
    ghost var ms := before;
    var i := 0;
    while i < |calls|
      invariant i <= |calls| && |objects| == |ms|
      invariant forall k | 0 <= k < |ms| :: |ms[k].vals| == 3 && objects[k].Contents() == ms[k]
      invariant AfterAll(AUTH_FRIEND_REQ, ms, calls[i..]) == AfterAll(AUTH_FRIEND_REQ, before, calls)
    {
      assert calls[i..][0] == calls[i] && calls[i..][1..] == calls[i + 1..];
      ok := RunCall(objects, calls[i], ms);
      if !ok { return; }
      ms, i := After(AUTH_FRIEND_REQ, ms, calls[i]).value, i + 1;
    }
    ok := true;
  }

  method NewObjects(n: nat) returns (objects: seq<AuthFriendReq>)
    ensures |objects| == n && fresh(objects) && forall i, j | 0 <= i < j < n :: objects[i] != objects[j]
    ensures forall k | 0 <= k < n :: objects[k].Contents() == Default(AUTH_FRIEND_REQ)
  {
    hide Default, AddFriendMsgs;
    objects := [];
    while |objects| < n
      invariant |objects| <= n && fresh(objects)
      invariant forall i, j | 0 <= i < j < |objects| :: objects[i] != objects[j]
      invariant forall k | 0 <= k < |objects| :: objects[k].Contents() == Default(AUTH_FRIEND_REQ)
    {
      var o := new AuthFriendReq();
      objects := objects + [o];
    }
  }

  /**
   New objects and any successful calls: every object is clean, and restored by its bytes exactly when
   they are readable.
   */
  method RunHistory(n: nat, calls: seq<Call>) returns (ok: bool, objects: seq<AuthFriendReq>)
    ensures |objects| == n
    ensures ok ==> forall k | 0 <= k < n :: var s, m := AUTH_FRIEND_REQ, objects[k].Contents();
      Clean(s, m) && (Parse(s, Default(s), Encode(s, m, false)) == Done(m) <==> Fits(s, m, false))
  {
    hide Parse, Encode, Clean, Fits, AfterAll, AddFriendMsgs, Legal;
    objects := NewObjects(n);
    ghost var ms := seq(n, _ => Default(AUTH_FRIEND_REQ));
    SchemasAreLegal();
    DefaultIsWellFormed(AUTH_FRIEND_REQ, true);
    ok := RunCalls(objects, calls, ms);
    if ok { ReachableMessagesAreClean(AUTH_FRIEND_REQ, ms, calls); }
  }
}
