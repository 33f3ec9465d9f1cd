/**
 Which records matter to which field. A parsed field depends only on the records of its own
 slot, in their order; the unknown records are kept in theirs. Record order between different
 slots is therefore irrelevant.
 */
module Slots {
  import opened Wire
  import opened Codec

  /** The records of slot `k`, in order. Slot |fields| holds the unknown records. */
  function Of(s: Schema, rs: seq<Record>, k: nat): seq<Record> {
    if rs == [] then []
    else (if Slot(s, rs[0]) == k then [rs[0]] else []) + Of(s, rs[1..], k)
  }

  /** A field after all the records of its slot. */
  function StoreAll(k: Kind, v: Value, rs: seq<Record>): Option<Value>
    decreases |rs|
  {
    if rs == [] then Some(v)
    else if !Expects(k, rs[0].payload) then None
    else match Store(k, v, rs[0].payload)
      case None => None
      case Some(v') => StoreAll(k, v', rs[1..])
  }

  ghost predicate AllStore(s: Schema, m: Message, rs: seq<Record>)
    requires |m.vals| == |s.fields|
  {
    forall k | 0 <= k < |s.fields| :: StoreAll(s.fields[k], m.vals[k], Of(s, rs, k)).Some?
  }

  /** Each slot computed on its own. */
  ghost function BySlot(s: Schema, m: Message, rs: seq<Record>): (o: Option<Message>)
    requires |m.vals| == |s.fields|
    ensures o.Some? ==> |o.value.vals| == |s.fields|
  {
    if AllStore(s, m, rs) then
      Some(Message(seq(|s.fields|, k requires 0 <= k < |s.fields| =>
                         StoreAll(s.fields[k], m.vals[k], Of(s, rs, k)).value),
                   m.unknown + Of(s, rs, |s.fields|)))
    else None
  }

  /** `newer` declares what `older` declares, and possibly more fields after it. */
  ghost predicate Extends(newer: Schema, older: Schema) {
    |older.fields| <= |newer.fields| && older.fields == newer.fields[..|older.fields|]
  }

  lemma OfCons(s: Schema, r: Record, rs: seq<Record>, k: nat)
    ensures Of(s, [r] + rs, k) == (if Slot(s, r) == k then [r] else []) + Of(s, rs, k)
  {
    assert ([r] + rs)[1..] == rs;
  }

  lemma {:induction false} OfConcat(s: Schema, a: seq<Record>, c: seq<Record>, k: nat)
    ensures Of(s, a + c, k) == Of(s, a, k) + Of(s, c, k)
  {
    if a == [] {
      assert a + c == c;
    } else {
      assert a + c == [a[0]] + (a[1..] + c);
      OfCons(s, a[0], a[1..] + c, k);
      OfConcat(s, a[1..], c, k);
    }
  }

  /** The records of one slot are all of that slot, or none of another. */
  lemma {:induction false} OfUniform(s: Schema, rs: seq<Record>, j: nat, k: nat)
    requires forall r | r in rs :: Slot(s, r) == j
    ensures Of(s, rs, k) == if j == k then rs else []
  {
    if rs != [] {
      OfUniform(s, rs[1..], j, k);
      assert [rs[0]] + rs[1..] == rs;
    }
  }

  /** Records of one slot at the end. */
  lemma OfNext(s: Schema, before: seq<Record>, here: seq<Record>, j: nat, k: nat)
    requires forall r | r in here :: Slot(s, r) == j
    ensures k == j ==> Of(s, before + here, k) == Of(s, before, k) + here
    ensures k != j ==> Of(s, before + here, k) == Of(s, before, k)
    ensures k == j && Of(s, before, k) == [] ==> Of(s, before + here, k) == here
  {
    hide Of, Slot;
    OfConcat(s, before, here, k);
    OfUniform(s, here, j, k);
    if k != j { assert Of(s, before, k) + [] == Of(s, before, k); }
    if Of(s, before, k) == [] { assert [] + here == here; }
  }

  /** How one record at the front shows up in the slot `k`. */
  lemma SlotCons(s: Schema, m: Message, r: Record, rs: seq<Record>, k: nat)
    requires |m.vals| == |s.fields| && k < |s.fields|
    ensures Slot(s, r) != k ==> Of(s, [r] + rs, k) == Of(s, rs, k)
    ensures Slot(s, r) == k && Apply(s, m, r).None? ==> StoreAll(s.fields[k], m.vals[k], Of(s, [r] + rs, k)).None?
    ensures Apply(s, m, r).Some? ==>
      StoreAll(s.fields[k], m.vals[k], Of(s, [r] + rs, k))
      == StoreAll(s.fields[k], Apply(s, m, r).value.vals[k], Of(s, rs, k))
  {
    OfCons(s, r, rs, k);
    assert [] + Of(s, rs, k) == Of(s, rs, k);
    assert ([r] + Of(s, rs, k))[1..] == Of(s, rs, k);
  }

  lemma BySlotAgrees(s: Schema, m: Message, rs: seq<Record>, m': Message, qs: seq<Record>)
    requires |m.vals| == |s.fields| == |m'.vals|
    requires forall k | 0 <= k < |s.fields| ::
      StoreAll(s.fields[k], m.vals[k], Of(s, rs, k)) == StoreAll(s.fields[k], m'.vals[k], Of(s, qs, k))
    requires m.unknown + Of(s, rs, |s.fields|) == m'.unknown + Of(s, qs, |s.fields|)
    ensures BySlot(s, m, rs) == BySlot(s, m', qs)
  {
    assert AllStore(s, m, rs) <==> AllStore(s, m', qs);
    if AllStore(s, m, rs) {
      assert BySlot(s, m, rs).value.vals == BySlot(s, m', qs).value.vals;
    }
  }

  lemma BySlotIs(s: Schema, m: Message, rs: seq<Record>, x: Message)
    requires |m.vals| == |s.fields| == |x.vals|
    requires forall k | 0 <= k < |s.fields| :: StoreAll(s.fields[k], m.vals[k], Of(s, rs, k)) == Some(x.vals[k])
    requires x.unknown == m.unknown + Of(s, rs, |s.fields|)
    ensures BySlot(s, m, rs) == Some(x)
  {
    assert AllStore(s, m, rs);
    assert BySlot(s, m, rs).value.vals == x.vals;
  }

  lemma UnknownCons(s: Schema, m: Message, r: Record, rs: seq<Record>)
    requires |m.vals| == |s.fields| && Apply(s, m, r).Some?
    ensures m.unknown + Of(s, [r] + rs, |s.fields|)
         == Apply(s, m, r).value.unknown + Of(s, rs, |s.fields|)
  {
    OfCons(s, r, rs, |s.fields|);
    if Slot(s, r) == |s.fields| {
      Associative(m.unknown, [r], Of(s, rs, |s.fields|));
    } else {
      assert [] + Of(s, rs, |s.fields|) == Of(s, rs, |s.fields|);
    }
  }

  /** One record first, then the rest slot by slot, is all records slot by slot. */
  lemma {:induction false} BySlotCons(s: Schema, m: Message, r: Record, rs: seq<Record>)
    requires |m.vals| == |s.fields|
    ensures Apply(s, m, r).None? ==> BySlot(s, m, [r] + rs).None?
    ensures Apply(s, m, r).Some? ==> BySlot(s, m, [r] + rs) == BySlot(s, Apply(s, m, r).value, rs)
  {
    var m' := Apply(s, m, r);
    if m'.None? {
      SlotCons(s, m, r, rs, Slot(s, r));
    } else {
      forall k | 0 <= k < |s.fields|
        ensures StoreAll(s.fields[k], m.vals[k], Of(s, [r] + rs, k))
             == StoreAll(s.fields[k], m'.value.vals[k], Of(s, rs, k))
      {
        SlotCons(s, m, r, rs, k);
      }
      UnknownCons(s, m, r, rs);
      BySlotAgrees(s, m, [r] + rs, m'.value, rs);
    }
  }

  lemma {:induction false} InterpretIsBySlot(s: Schema, m: Message, rs: seq<Record>)
    requires |m.vals| == |s.fields|
    ensures Interpret(s, m, rs) == BySlot(s, m, rs)
    decreases |rs|
  {
    if rs == [] {
      assert AllStore(s, m, rs);
      assert m.unknown + [] == m.unknown;
      assert BySlot(s, m, rs).value.vals == m.vals;
    } else {
      BySlotCons(s, m, rs[0], rs[1..]);
      assert [rs[0]] + rs[1..] == rs;
      var m' := Apply(s, m, rs[0]);
      if m'.Some? { InterpretIsBySlot(s, m'.value, rs[1..]); }
    }
  }

  /** The same records in another order that keeps the order inside every slot. */
  ghost predicate SameSlots(s: Schema, rs: seq<Record>, qs: seq<Record>) {
    forall k | 0 <= k <= |s.fields| :: Of(s, rs, k) == Of(s, qs, k)
  }

  /** Such a reordering loses and invents no record. */
  lemma SameSlotsArePermutations(s: Schema, rs: seq<Record>, qs: seq<Record>)
    requires SameSlots(s, rs, qs)
    ensures multiset(rs) == multiset(qs)
  {
    forall r: Record
      ensures multiset(rs)[r] == multiset(qs)[r]
    {
      CountInSlot(s, rs, r);
      CountInSlot(s, qs, r);
    }
  }

  lemma {:induction false} CountInSlot(s: Schema, rs: seq<Record>, r: Record)
    ensures multiset(Of(s, rs, Slot(s, r)))[r] == multiset(rs)[r]
  {
    if rs != [] {
      CountInSlot(s, rs[1..], r);
      assert rs == [rs[0]] + rs[1..];
    }
  }

  lemma SwapKeepsSlots(s: Schema, a: seq<Record>, r: Record, q: Record, c: seq<Record>)
    requires Slot(s, r) != Slot(s, q)
    ensures SameSlots(s, a + [r, q] + c, a + [q, r] + c)
  {
    hide Slot;
    forall k | 0 <= k <= |s.fields|
      ensures Of(s, a + [r, q] + c, k) == Of(s, a + [q, r] + c, k)
    {
      OfConcat(s, a + [r, q], c, k);
      OfConcat(s, a, [r, q], k);
      OfConcat(s, a + [q, r], c, k);
      OfConcat(s, a, [q, r], k);
      assert [r, q][1..] == [q] && [q, r][1..] == [r];
    }
  }

  /**
   Reordering the records of an input without reordering any slot changes neither whether it is
   accepted nor what it means.
   */
  lemma RecordOrderIndependence(s: Schema, m: Message, b: seq<byte>, c: seq<byte>)
    requires |m.vals| == |s.fields|
    requires Records(b).Some? && Records(c).Some?
    requires SameSlots(s, Records(b).value, Records(c).value)
    ensures Parse(s, m, b).Done? <==> Parse(s, m, c).Done?
    ensures Parse(s, m, b).Done? ==> Parse(s, m, c) == Parse(s, m, b)
  {
    ParseIsInterpret(s, m, b);
    ParseIsInterpret(s, m, c);
    var rs, qs := Records(b).value, Records(c).value;
    InterpretIsBySlot(s, m, rs);
    InterpretIsBySlot(s, m, qs);
    BySlotAgrees(s, m, rs, m, qs);
  }
}
