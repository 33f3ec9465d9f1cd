/**
 How short the written bytes are among all inputs that mean the same message.
 */
module Shortest {
  import opened Wire
  import opened Codec
  import opened RoundTrip
  import opened Bounds
  import opened Widths

  /** The short encoding is an input for the message it encodes. */
  lemma {:induction false} ShortEncodingIsRead(s: Schema, b: seq<byte>)
    requires Legal(s) && Parse(s, Default(s), b).Done?
    ensures var m := Parse(s, Default(s), b).m; Parse(s, Default(s), Encode(s, m, true)) == Done(m)
  {
    var m := Parse(s, Default(s), b).m;
    DefaultIsWellFormed(s, true);
    ParseKeeps(s, Default(s), b);
    MessageReadBack(s, Default(s), m, true);
    MergeIntoDefault(s, m);
  }

  /** No input for a message is shorter than its short encoding, nor less than half as long as its output. */
  lemma {:induction false} ShortEncodingIsMinimal(s: Schema, b: seq<byte>)
    requires Legal(s) && Parse(s, Default(s), b).Done?
    ensures var m := Parse(s, Default(s), b).m;
      |Encode(s, m, true)| <= |b| && |Encode(s, m, false)| <= 2 * |b|
  {
    var m := Parse(s, Default(s), b).m;
    DefaultIsWellFormed(s, true);
    ParseKeeps(s, Default(s), b);
    MessageWidth(s, m);
    SizeIsLength(s, Default(s), true);
    SizeIsLength(s, m, true);
    SizeIsLength(s, m, false);
  }

  /** No input that parses to `m` is shorter than `e`. */
  ghost predicate IsShortestFor(s: Schema, m: Message, e: seq<byte>) {
    forall c | Parse(s, Default(s), c) == Done(m) :: |e| <= |c|
  }

  /** What the classes write is as short as any input for the same message, exactly when no int32 is negative. */
  lemma {:induction false} OutputIsShortestExactly(s: Schema, b: seq<byte>)
    requires Legal(s) && Parse(s, Default(s), b).Done?
    ensures var m := Parse(s, Default(s), b).m;
      IsShortestFor(s, m, Encode(s, m, false)) <==> NoNegativeInt32(s, m)
  {
    var m := Parse(s, Default(s), b).m;
    DefaultIsWellFormed(s, true);
    ParseKeeps(s, Default(s), b);
    ShortEncodingIsRead(s, b);
    MessageWidth(s, m);
    SizeIsLength(s, m, true);
    SizeIsLength(s, m, false);
    forall c | Parse(s, Default(s), c) == Done(m)
      ensures |Encode(s, m, true)| <= |c|
    {
      ShortEncodingIsMinimal(s, c);
    }
  }
}
