/**
 The algebra of MergeFrom, the empty message, and what holds of every message reachable by
 parsing, clearing, merging and copying.
 */
module Merging {
  import opened Wire
  import opened Codec
  import opened RoundTrip
  import opened Bounds
  import opened Exactness

  lemma MergeAssociative(s: Schema, a: Message, b: Message, c: Message)
    requires HasSchema(s, a) && HasSchema(s, b) && HasSchema(s, c)
    ensures Merge(Merge(a, b), c) == Merge(a, Merge(b, c))
  {
    forall k | 0 <= k < |s.fields|
      ensures MergeValue(MergeValue(a.vals[k], b.vals[k]), c.vals[k])
           == MergeValue(a.vals[k], MergeValue(b.vals[k], c.vals[k]))
    {
      assert HasKind(s.fields[k], a.vals[k]) && HasKind(s.fields[k], b.vals[k]) && HasKind(s.fields[k], c.vals[k]);
      if s.fields[k].Repeated? { Associative(a.vals[k].items, b.vals[k].items, c.vals[k].items); }
    }
    Associative(a.unknown, b.unknown, c.unknown);
    assert Merge(Merge(a, b), c).vals == Merge(a, Merge(b, c)).vals;
  }

  /** The default instance is a unit on both sides. */
  lemma DefaultIsUnit(s: Schema, m: Message)
    requires HasSchema(s, m)
    ensures Merge(Default(s), m) == m && Merge(m, Default(s)) == m
  {
    MergeIntoDefault(s, m);
    forall k | 0 <= k < |s.fields|
      ensures MergeValue(m.vals[k], Default(s).vals[k]) == m.vals[k]
    {
      assert HasKind(s.fields[k], m.vals[k]);
      if m.vals[k].ListV? { assert m.vals[k].items + [] == m.vals[k].items; }
    }
    assert Merge(m, Default(s)).vals == m.vals;
    assert m.unknown + [] == m.unknown;
  }

  /** Field by field: numbers and texts take the last value that is not the default, the rest is concatenated. */
  lemma MergeTakesLastNonDefault(s: Schema, a: Message, c: Message, k: nat)
    requires HasSchema(s, a) && HasSchema(s, c) && k < |s.fields|
    ensures Merge(a, c).unknown == a.unknown + c.unknown
    ensures s.fields[k].Repeated? ==> a.vals[k].ListV? && c.vals[k].ListV?
    ensures s.fields[k].Repeated? ==> Merge(a, c).vals[k] == ListV(a.vals[k].items + c.vals[k].items)
    ensures !s.fields[k].Repeated? ==>
      Merge(a, c).vals[k] == if c.vals[k] == DefaultValue(s.fields[k]) then a.vals[k] else c.vals[k]
  {
    assert HasKind(s.fields[k], a.vals[k]) && HasKind(s.fields[k], c.vals[k]);
  }

  lemma MergeKeeps(s: Schema, a: Message, c: Message, short: bool)
    requires Clean(s, a) && Clean(s, c)
    ensures Clean(s, Merge(a, c))
    ensures Fits(s, a, short) && Fits(s, c, short) ==> Fits(s, Merge(a, c), short)
  {
    var m := Merge(a, c);
    forall k | 0 <= k < |s.fields|
      ensures HasKind(s.fields[k], m.vals[k]) && CleanValue(s.fields[k], m.vals[k])
      ensures Fits(s, a, short) && Fits(s, c, short) ==> FitsValue(s.fields[k], m.vals[k], short)
    {
      MergeTakesLastNonDefault(s, a, c, k);
      assert HasKind(s.fields[k], a.vals[k]) && CleanValue(s.fields[k], a.vals[k]);
      assert HasKind(s.fields[k], c.vals[k]) && CleanValue(s.fields[k], c.vals[k]);
      if Fits(s, a, short) && Fits(s, c, short) {
        assert FitsValue(s.fields[k], a.vals[k], short) && FitsValue(s.fields[k], c.vals[k], short);
      }
    }
  }

  // ----- The empty message -----

  lemma EmptyField(num: nat, k: Kind, v: Value)
    requires HasKind(k, v)
    ensures RecordsSize(FieldRecords(num, k, v, false)) == 0 <==> v == DefaultValue(k)
  {
    DefaultFieldIsSkipped(num, k, false);
    if v != DefaultValue(k) {
      assert FieldRecords(num, k, v, false) != [];
    }
  }

  lemma {:induction false} EmptyFields(s: Schema, m: Message, n: nat)
    requires HasSchema(s, m) && n <= |s.fields|
    ensures FieldsSize(s, m, n, false) == 0 <==> forall k | 0 <= k < n :: m.vals[k] == DefaultValue(s.fields[k])
  {
    if n > 0 {
      EmptyFields(s, m, n - 1);
      assert HasKind(s.fields[n - 1], m.vals[n - 1]);
      EmptyField(n, s.fields[n - 1], m.vals[n - 1]);
    }
  }

  /** The size is zero exactly when nothing is written, and exactly for the default instance. */
  lemma EmptyExactly(s: Schema, m: Message)
    requires HasSchema(s, m)
    ensures Size(s, m, false) == 0 <==> Encode(s, m, false) == []
    ensures Size(s, m, false) == 0 <==> m == Default(s)
  {
    SizeIsLength(s, m, false);
    SizeAdds(s, m, false);
    EmptyFields(s, m, |s.fields|);
    if Size(s, m, false) == 0 {
      assert m.unknown == [];
      assert m.vals == Default(s).vals;
    }
    if m == Default(s) { DefaultIsWellFormed(s, false); }
  }

  // ----- Reachable messages -----

  /** One call on one of several messages of a class. */
  datatype Call =
    | ParseInto(dst: nat, b: seq<byte>)
    | Clear(dst: nat)
    | MergeFrom(dst: nat, src: nat)
    | CopyFrom(dst: nat, src: nat)

  /**
   The messages after a call. A parse may end at a stop tag, with part of its window unread. There is
   no outcome when a parse fails or a call is not allowed.
   */
  function After(s: Schema, ms: seq<Message>, call: Call): (o: Option<seq<Message>>)
    requires forall m | m in ms :: |m.vals| == |s.fields|
    ensures o.Some? ==> forall m | m in o.value :: |m.vals| == |s.fields|
  {
    if call.dst >= |ms| then None
    else match call
      case ParseInto(d, b) =>
        (match Parse(s, ms[d], b)
         case Done(m) => Some(ms[d := m])
         case Stopped(m, _, _) => Some(ms[d := m])
         case Failed => None)
      case Clear(d) => Some(ms[d := Default(s)])
      case MergeFrom(d, src) =>
        if src >= |ms| || src == d then None else Some(ms[d := Merge(ms[d], ms[src])])
      case CopyFrom(d, src) =>
        if src >= |ms| then None
        else if src == d then Some(ms)
        else Some(ms[d := Merge(Default(s), ms[src])])
  }

  function AfterAll(s: Schema, ms: seq<Message>, calls: seq<Call>): (o: Option<seq<Message>>)
    requires forall m | m in ms :: |m.vals| == |s.fields|
    decreases |calls|
  {
    if calls == [] then Some(ms)
    else match After(s, ms, calls[0])
      case None => None
      case Some(ms') => AfterAll(s, ms', calls[1..])
  }

  /** CopyFrom assigns, whatever the target held; Clear assigns the default; MergeFrom changes nothing else. */
  lemma CallsAssign(s: Schema, ms: seq<Message>, d: nat, src: nat)
    requires d < |ms| && src < |ms| && forall m | m in ms :: |m.vals| == |s.fields| && HasSchema(s, m)
    ensures After(s, ms, CopyFrom(d, src)) == Some(ms[d := ms[src]])
    ensures After(s, ms, Clear(d)) == Some(ms[d := Default(s)])
    ensures src != d ==> After(s, ms, MergeFrom(d, src)) == Some(ms[d := Merge(ms[d], ms[src])])
  {
    MergeIntoDefault(s, ms[src]);
    if src == d { assert ms[d := ms[src]] == ms; }
  }

  lemma CallKeeps(s: Schema, ms: seq<Message>, call: Call)
    requires Legal(s) && forall m | m in ms :: |m.vals| == |s.fields| && Clean(s, m) && Fits(s, m, true)
    requires After(s, ms, call).Some?
    ensures forall m | m in After(s, ms, call).value :: Clean(s, m) && Fits(s, m, true)
  {
    DefaultIsWellFormed(s, true);
    match call
    case ParseInto(d, b) => if Parse(s, ms[d], b).Done? { ParseKeeps(s, ms[d], b); } else { StoppedKeeps(s, ms[d], b); }
    case Clear(_) =>
    case MergeFrom(d, src) => MergeKeeps(s, ms[d], ms[src], true);
    case CopyFrom(d, src) => MergeKeeps(s, Default(s), ms[src], true);
  }

  /** From default messages, every sequence of calls leaves every message clean, and restorable from its
      bytes exactly when its lengths are readable. */
  lemma {:induction false} ReachableMessagesAreClean(s: Schema, ms: seq<Message>, calls: seq<Call>)
    requires Legal(s) && forall m | m in ms :: |m.vals| == |s.fields| && Clean(s, m) && Fits(s, m, true)
    requires AfterAll(s, ms, calls).Some?
    ensures forall m | m in AfterAll(s, ms, calls).value ::
      && Clean(s, m)
      && (Parse(s, Default(s), Encode(s, m, false)) == Done(m) <==> Fits(s, m, false))
    decreases |calls|
  {
    if calls == [] {
      forall m | m in ms
        ensures Parse(s, Default(s), Encode(s, m, false)) == Done(m) <==> Fits(s, m, false)
      {
        RoundTripExactly(s, m);
      }
    } else {
      CallKeeps(s, ms, calls[0]);
      ReachableMessagesAreClean(s, After(s, ms, calls[0]).value, calls[1..]);
    }
  }
}
