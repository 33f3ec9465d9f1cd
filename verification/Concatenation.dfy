/**
 Concatenating encodings against merging messages.
 */
module Concatenation {
  import opened Wire
  import opened Codec
  import opened Slots
  import opened RoundTrip
  import opened Bounds

  /** Parsing a whole window and then more is parsing the rest on top of what the window gave. */
  lemma {:induction false} ParseAppend(s: Schema, m: Message, a: seq<byte>, c: seq<byte>)
    requires |m.vals| == |s.fields| && Parse(s, m, a).Done?
    ensures Parse(s, m, a + c) == Parse(s, Parse(s, m, a).m, c)
    decreases |a|
  {
    if a == [] {
      assert a + c == c;
    } else {
      ParseStep(s, m, a);
      ParseStep(s, m, a + c);
      RecordAppend(a, c);
      ParseAppend(s, Apply(s, m, ReadRecord(a).value).value, ReadRecord(a).rest, c);
    }
  }

  /** Canonical bytes after any accepted input merge their message into what was parsed. */
  lemma ConcatenationIsMerge(s: Schema, a: seq<byte>, m: Message)
    requires Legal(s) && Parse(s, Default(s), a).Done? && WellFormed(s, m)
    ensures Parse(s, Default(s), a + Encode(s, m, false)) == Done(Merge(Parse(s, Default(s), a).m, m))
  {
    DefaultIsWellFormed(s, true);
    ParseKeeps(s, Default(s), a);
    ParseAppend(s, Default(s), a, Encode(s, m, false));
    MessageReadBack(s, Parse(s, Default(s), a).m, m, false);
  }

  /** A number or text field keeps only the last record stored. */
  lemma {:induction false} LastOneWins(k: Kind, x: Value, y: Value, rs: seq<Record>)
    requires !k.Repeated? && rs != []
    ensures StoreAll(k, x, rs) == StoreAll(k, y, rs)
    decreases |rs|
  {
    if |rs| > 1 && Expects(k, rs[0].payload) {
      assert Store(k, x, rs[0].payload) == Store(k, y, rs[0].payload);
    }
  }

  lemma {:induction false} ListsAppend(child: Schema, xs: seq<Message>, rs: seq<Record>)
    requires StoreAll(Repeated(child), ListV([]), rs).Some?
    ensures StoreAll(Repeated(child), ListV([]), rs).value.ListV?
    ensures StoreAll(Repeated(child), ListV(xs), rs)
         == Some(ListV(xs + StoreAll(Repeated(child), ListV([]), rs).value.items))
    decreases |rs|
  {
    if rs == [] {
      assert xs + [] == xs;
    } else {
      var c := Parse(child, Default(child), rs[0].payload.data).m;
      assert [] + [c] == [c];
      ListsAppendTo(child, [c], xs, rs[1..]);
    }
  }

  lemma {:induction false} ListsAppendTo(child: Schema, ys: seq<Message>, xs: seq<Message>, rs: seq<Record>)
    requires StoreAll(Repeated(child), ListV(ys), rs).Some?
    ensures StoreAll(Repeated(child), ListV(ys), rs).value.ListV?
    ensures StoreAll(Repeated(child), ListV(xs + ys), rs)
         == Some(ListV(xs + StoreAll(Repeated(child), ListV(ys), rs).value.items))
    decreases |rs|
  {
    if rs != [] {
      var c := Parse(child, Default(child), rs[0].payload.data).m;
      assert xs + ys + [c] == xs + (ys + [c]);
      ListsAppendTo(child, ys + [c], xs, rs[1..]);
    }
  }

  /** The second input explicitly resets a number or text that the first one set. */
  ghost predicate Resets(s: Schema, x: Message, y: Message, second: seq<Record>, k: nat)
    requires |x.vals| == |y.vals| == |s.fields| && k < |s.fields|
  {
    && !s.fields[k].Repeated?
    && Of(s, second, k) != []
    && y.vals[k] == DefaultValue(s.fields[k]) != x.vals[k]
  }

  lemma FieldOfConcatenation(s: Schema, x: Message, y: Message, rs: seq<Record>, k: nat)
    requires HasSchema(s, x) && HasSchema(s, y) && k < |s.fields|
    requires StoreAll(s.fields[k], DefaultValue(s.fields[k]), Of(s, rs, k)) == Some(y.vals[k])
    ensures StoreAll(s.fields[k], x.vals[k], Of(s, rs, k)).Some?
    ensures StoreAll(s.fields[k], x.vals[k], Of(s, rs, k)).value == MergeValue(x.vals[k], y.vals[k])
       <==> !Resets(s, x, y, rs, k)
  {
    var kind := s.fields[k];
    assert HasKind(kind, x.vals[k]) && HasKind(kind, y.vals[k]);
    if kind.Repeated? {
      ListsAppend(kind.child, x.vals[k].items, Of(s, rs, k));
    } else if Of(s, rs, k) != [] {
      LastOneWins(kind, x.vals[k], DefaultValue(kind), Of(s, rs, k));
    }
  }

  /**
   For arbitrary accepted inputs, concatenation is MergeFrom exactly when the second input does
   not reset a field that the first one set: an explicit zero or empty text is stored by the
   parser but skipped by MergeFrom.
   */
  lemma ConcatenationIsMergeExactly(s: Schema, a: seq<byte>, c: seq<byte>)
    requires Legal(s) && Parse(s, Default(s), a).Done? && Parse(s, Default(s), c).Done?
    ensures Records(c).Some? && Parse(s, Default(s), a + c).Done?
    ensures var x, y := Parse(s, Default(s), a).m, Parse(s, Default(s), c).m;
      Parse(s, Default(s), a + c).m == Merge(x, y)
      <==> forall k | 0 <= k < |s.fields| :: !Resets(s, x, y, Records(c).value, k)
  {
    hide Parse, StoreAll, Of, Resets, MergeValue, Encode;
    var x, y := Parse(s, Default(s), a).m, Parse(s, Default(s), c).m;
    DefaultIsWellFormed(s, true);
    ParseKeeps(s, Default(s), a);
    ParseKeeps(s, Default(s), c);
    ParseAppend(s, Default(s), a, c);
    ParseIsInterpret(s, Default(s), c);
    ParseIsInterpret(s, x, c);
    var rs := Records(c).value;
    InterpretIsBySlot(s, Default(s), rs);
    InterpretIsBySlot(s, x, rs);
    assert [] + Of(s, rs, |s.fields|) == Of(s, rs, |s.fields|);
    forall k | 0 <= k < |s.fields|
      ensures StoreAll(s.fields[k], x.vals[k], Of(s, rs, k)).Some?
      ensures StoreAll(s.fields[k], x.vals[k], Of(s, rs, k)).value == MergeValue(x.vals[k], y.vals[k])
         <==> !Resets(s, x, y, rs, k)
    {
      FieldOfConcatenation(s, x, y, rs, k);
    }
    var z := BySlot(s, x, rs).value;
    assert z.vals == Merge(x, y).vals
      <==> forall k | 0 <= k < |s.fields| :: z.vals[k] == MergeValue(x.vals[k], y.vals[k]);
  }
}
