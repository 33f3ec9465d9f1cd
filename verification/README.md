# The message codec of the chat services

Every service of the system exchanges Protocol Buffers messages, read and written by the classes
in `ChatServer/message.pb.cc` and `message.pb.h`. This project models those classes and proves
what they promise together: that messages survive being written and read, that concatenation,
merging, truncation and reordering mean what they should, that older and newer readers
understand each other, and that the two-pass size protocol writes correct length prefixes.

## How it is built

The specification is written once, for every class. A `Schema` lists the kinds of a class's
fields in number order (all classes of `message.proto` number their fields 1 to n), a `Message`
is the values of those fields plus its unknown records.

- `Wire` has varints, fixed-width numbers, records, and their sizes. `Utf8` has the validity of
  text and its link to Unicode scalar values.
- `WireLaws` and `RecordLaws` say what bytes and fields mean in plain arithmetic and by an input's
  records alone, without the functions of `Codec`.
- `Codec` says what parsing, serializing and merging compute. A parse ends as `Done` (at the end
  of its window), `Stopped` (at tag 0 or an end-group tag) or `Failed`.
- `RoundTrip`, `Exactness`, `Bounds`, `Widths`, `Shortest`, `Concatenation`, `Slots`,
  `Compatibility`, `Truncation` and `Merging` hold the theorems, `Limits` the inputs on which a
  tempting stronger law fails.
- `Library` is the runtime code the classes call, as loops over a window or an output:
  the parse context with its limit, varint readers and writers, unknown records.
- `AuthFriend`, `TextChat` and `FlatMessages` are the classes themselves, with mutable fields, a
  `cachedSize` and methods in the source's statement order, each proved against `Codec`
  (`Contents()` is the message an object holds). `ParseSteps`, `WriteSteps` and `Framing` hold
  the reasoning of one turn of their loops. `Exchange` connects objects end to end, `Histories` runs
  sequences of calls on several.

The `short` argument of `Encode` and of the sizes selects a writer that keeps an int32 in 32
bits. No class writes that way; it is the yardstick that says how short an input can be.

*Clean* means typed, valid UTF-8, and no unknown record that belongs to a declared field, in
children as well. *Fits* means that every length prefix is one a reader accepts. *Well formed*
is both. *Accepted* means parsed exactly to the end of the window.

## What turned out to be true

Three laws hold only under a condition, and the theorems give it exactly.

- The section "Last One Wins" of the Protocol Buffers Encoding specification says that parsing
  concatenated bytes equals merging the parsed messages. The code does not always do that: the
  parser stores an explicit zero or empty text, MergeFrom skips it. `ConcatenationIsMergeExactly`
  gives the condition, `ResetIsNotMerge` an input.
- The output is the shortest input for its message unless some int32 is negative, which is
  written in ten bytes and may be read from five (`OutputIsShortestExactly`,
  `NegativeIsWrittenLong`).
- Rewriting an accepted input and reading it again gives the same message unless negative
  int32s push a child past the largest length a reader accepts (`NormalisationIsIdempotent`,
  `LargeInputIsNotIdempotent`). Inputs of up to half that length are always safe, and so is every
  class without children (`ChildlessFits`).

The writer checks text for UTF-8 but ignores the result (`ChatServer/message.pb.cc:4127-4132`), so
a message with invalid text is written all the same. Its own class then refuses the bytes, also
when the text is in a child (`WrittenIsAcceptedExactly`); an older class that does not declare the
field accepts them (`InvalidTextIsWritten`).

The runtime library (protobuf 3.13) is not part of the repository. Its behaviour is taken from
the Protocol Buffers Encoding specification (sections "Base 128 Varints", "Message Structure",
"More Integer Types", "Length-Delimited Records", "Repeated Elements"), section 4 of RFC 3629 and
the proto3 Language Guide (section "Default Field Values"), with the limits of that runtime: tags
of at most five bytes modulo 2^32, numbers of at most ten bytes modulo 2^64, lengths of at most
INT_MAX - 16, and length prefixes narrowed to 32 bits when written.

`dafny verify dfyconfig.toml` checks the whole project.

## Model

| member | source | states |
|---|---|---|
| Exactness.RoundTripExactly | ChatServer/message.pb.cc:4378-4504 | A message is restored, equal in every field, child order and unknown record, by parsing its own serialization into a cleared object if and only if it is well formed (valid UTF-8, no unknown record of a declared slot, every length prefix within the reader's limit), for every class and every typed message |
| Exactness.WrittenIsAcceptedExactly | ChatServer/message.pb.cc:4053-4132 | A message with readable lengths and no unknown record of a declared field is accepted by its own class, after being written, if and only if all its text is UTF-8, in children as well: the writer goes on after a failed check, the reader does not |
| Exactness.AcceptedTextsAreValid | ChatServer/message.pb.cc:4053-4060 | Acceptance of what was written implies that every text is valid |
| Exactness.CleanIsBoth | ChatServer/message.pb.cc:4053-4132 | A typed message is clean exactly when its texts are valid and its unknown records belong to no declared field |
| Limits.InvalidTextIsWritten | ChatServer/message.pb.cc:1842-1887 | A LoginReq with token FF is written as 12 01 FF; LoginReq refuses these bytes and KickUserReq accepts them, with the token as an unknown record |
| RoundTrip.MessageReadBack | ChatServer/message.pb.cc:4378-4466 | Parsing a well-formed message's serialization on top of any contents merges the message into them; the same holds for the shortest encoding |
| Exchange.SendAuthFriendReq | ChatServer/message.pb.cc:4378-4504 | Measured, written and read by another object, a well-formed AuthFriendReq arrives with equal contents, and is refused only when its size is not an int |
| Exchange.SendTextChatMsgReq | ChatServer/message.pb.cc:4896-5042 | The same for a TextChatMsgReq with its chat lines |
| Exchange.SendTextChatMsgRsp | ChatServer/message.pb.cc:5495-5661 | The same for a TextChatMsgRsp |
| Exchange.Restored | ChatServer/message.pb.cc:4378-4466 | Parsing a well-formed message's serialization from the default instance gives that message |
| Concatenation.ConcatenationIsMerge | ChatServer/message.pb.cc:4378-4535 | Appending the serialization of a well-formed m to any accepted bytes a and parsing both equals MergeFrom applied to parse(a) and m |
| Concatenation.ConcatenationIsMergeExactly | ChatServer/message.pb.cc:4378-4535 | For any two accepted inputs the concatenation is accepted, and equals MergeFrom of the two messages if and only if the second input contains no record that resets, to zero, false or empty, a number or text that the first one set |
| Concatenation.ParseAppend | ChatServer/message.pb.cc:4381-4425 | Parsing more bytes after an accepted input continues from the message the input gave |
| Concatenation.LastOneWins | ChatServer/message.pb.cc:4386-4399 | A number, bool or text field ends the same after a non-empty run of its records whatever it held before, failures included |
| Concatenation.ListsAppend | ChatServer/message.pb.cc:4401-4409 | A run of child records appends the same children to any list |
| Concatenation.FieldOfConcatenation | ChatServer/message.pb.cc:4386-4411 | For one field: continuing after the first message equals merging the second one's field exactly when the second input does not reset it |
| Limits.ResetIsNotMerge | ChatServer/message.pb.cc:5795-5901 | Bytes 08 05 then 08 00: the parser ends with 0, MergeFrom of the two messages keeps 5 |
| Shortest.OutputIsShortestExactly | ChatServer/message.pb.cc:4378-4504 | For an accepted input with message m, the serialization of m is no longer than any input at all that parses to m (padded varints, duplicates, explicit defaults, any order) if and only if no int32 in m or its children is negative |
| Shortest.ShortEncodingIsMinimal | ChatServer/message.pb.cc:4378-4504 | No input for m is shorter than the encoding that keeps int32 in 32 bits, and the real serialization is at most twice as long as any input |
| Shortest.ShortEncodingIsRead | ChatServer/message.pb.cc:4378-4504 | That 32-bit encoding of a parsed message is itself an input for the message |
| Limits.NegativeIsWrittenLong | ChatServer/message.pb.cc:5795-5850 | -1 is accepted in six bytes and written again in eleven |
| Widths.MessageWidth | ChatServer/message.pb.cc:4434-4504 | The serialization is between one and two times the size with 32-bit int32s, and equal to it exactly when no int32 is negative |
| Widths.NegativeWidth | ChatServer/message.pb.cc:4483-4488 | A negative int32 takes ten bytes sign-extended and five otherwise |
| Framing.WrittenExactly | ChatServer/message.pb.cc:4434-4466 | The serializer's output is the message's encoding if and only if every child's cached size is the one its current contents have; any stale cache shows in the bytes |
| Framing.FramedExactly | ChatServer/message.pb.cc:4452-4458 | The same for the run of children alone, before any bytes that follow |
| Framing.FrameExactly | ChatServer/message.pb.cc:4456-4457 | One framed child followed by t equals the encoded record followed by u exactly when the cached prefix is right and t equals u |
| Framing.SamePrefix | ChatServer/message.pb.cc:4456-4457 | Length prefixes are prefix-free: equal bytes have the same prefix value and the same rest |
| Framing.CachedPrefix | ChatServer/message.pb.cc:4501-4502 | The narrowed cached size written as a prefix is the size modulo 2^32 |
| Bounds.SizeIsLength | ChatServer/message.pb.cc:4468-4504 | The sum of record sizes is the number of bytes written |
| Bounds.SizeAdds | ChatServer/message.pb.cc:4468-4504 | A message's size is the sum over its declared fields plus its unknown records |
| Compatibility.OldReadersPassThrough | ChatServer/message.pb.cc:2736-2817 | For every input the newer class accepts (LoginReq, TextChatMsgReq) the older class accepts it too (KickUserReq, AddFriendRsp), and parsing what the older one writes with the newer class gives the original message if and only if the older one's length prefixes are readable |
| Compatibility.OldReaderAccepts | ChatServer/message.pb.cc:5795-5830 | The older reader holds the shared fields with the newer reader's values and keeps, in order, exactly the records of the fields it does not declare |
| Compatibility.NormalisationIsIdempotent | ChatServer/message.pb.cc:2362-2519 | For every accepted input, parse(serialize(parse(b))) = parse(b) if and only if the rewritten length prefixes are readable; declared numbers with another wire type included |
| Compatibility.SmallInputsFit | ChatServer/message.pb.cc:2362-2519 | The rewritten length prefixes of every accepted input up to half the size limit are readable |
| Compatibility.SmallMessagesFit | ChatServer/message.pb.cc:4113-4228 | A message whose shortest size is at most half the limit has only readable length prefixes |
| Compatibility.CanonicalBytesPassUnchanged | ChatServer/message.pb.cc:1872-1900 | An older reader writes the serialization of a well-formed newer message out again byte for byte |
| Limits.LargeInputIsNotIdempotent | ChatServer/message.pb.cc:4378-4504 | An input of INT_MAX - 10 bytes is accepted and rewritten in INT_MAX - 5 bytes, both within what the code reads and writes, and the result does not parse back: its child, with a negative status, has grown past the limit |
| Compatibility.ChildlessPassThrough | ChatServer/message.pb.cc:5795-5850 | An older class without children passes every accepted input of the newer class on with its meaning, whatever its size |
| Compatibility.ChildlessFits | ChatServer/message.pb.cc:5795-5850 | Without children the rewritten length prefixes of a parsed message are always readable |
| Exchange.KickUserReqPassesLoginReq | ChatServer/message.pb.cc:5795-5850 | Every accepted LoginReq input means the same after a KickUserReq, without condition |
| Exchange.RelayLoginReqBytes | ChatServer/message.pb.cc:5795-5874 | A KickUserReq object passes bytes on exactly when it accepts them and its output is shorter than 2^31 bytes; whatever it passes on of an accepted LoginReq means the same |
| Exchange.RelayLoginReq | ChatServer/message.pb.cc:1826-1931 | A well-formed LoginReq object, sent, relayed by a KickUserReq object and received, arrives with equal contents, and is refused only when its size is not an int |
| Exchange.AddFriendRspPassesTextChatMsgReq | ChatServer/message.pb.cc:2736-2817 | Every accepted TextChatMsgReq input means the same after an AddFriendRsp, without condition |
| Exchange.RelayTextChatMsgReqBytes | ChatServer/message.pb.cc:2736-2855 | An AddFriendRsp object passes bytes on exactly when it accepts them and its output is shorter than 2^31 bytes; whatever it passes on of an accepted TextChatMsgReq means the same |
| Exchange.RelayTextChatMsgReq | ChatServer/message.pb.cc:4896-5042 | A well-formed TextChatMsgReq object, sent, relayed by an AddFriendRsp object and received, arrives with equal contents, chat lines included, and is refused only when its size is not an int |
| Schemas.OlderSchemas | ChatServer/message.proto:30-131 | KickUserReq declares the first field of LoginReq and AddFriendRsp the first three of TextChatMsgReq, with the same kinds; neither has children |
| Slots.RecordOrderIndependence | ChatServer/message.pb.cc:2362-2440 | Reordering an input's records without reordering those of any one field or the unknown ones changes neither acceptance nor the message |
| Slots.SwapKeepsSlots | ChatServer/message.pb.cc:4385-4423 | Exchanging two neighbouring records of different fields is such a reordering |
| Slots.SameSlotsArePermutations | ChatServer/message.pb.cc:4385-4423 | Every such reordering is a permutation of the records |
| Slots.InterpretIsBySlot | ChatServer/message.pb.cc:4381-4425 | Taking records one by one equals computing each field from its own records alone, and fails exactly when one of the fields does |
| Truncation.PrefixAcceptedExactly | ChatServer/message.pb.cc:4896-4997 | A prefix of a well-formed message's serialization is accepted if and only if its length is that of the first c records, for some c |
| Truncation.PrefixMeansLeading | ChatServer/message.pb.cc:4896-4997 | Such a prefix parses to the message built from exactly the records before the cut |
| Truncation.CutOnBoundary | ChatServer/message.pb.cc:4959-4997 | A cut after c records is the serialization of, and parses to, the message with only those records |
| Truncation.LeadingRecords | ChatServer/message.pb.cc:4959-4997 | That message is written as exactly the first c records |
| Truncation.LeadingIsWellFormed | ChatServer/message.pb.cc:4959-4997 | It is well formed again |
| Wire.RecordsCut | ChatServer/message.pb.cc:4896-4957 | A prefix of written records is whole records exactly when it ends where a record ends |
| ParseSteps.FastRunRefines | ChatServer/message.pb.cc:4401-4411 | The child loop that only compares the next byte gives the message, position and failures of the outer dispatch taken once per child |
| ParseSteps.FastRunStops | ChatServer/message.pb.cc:4404-4409 | A finished run added at least one child after the old ones, consumed bytes, and stopped where the next byte is not the tag, so an overlong tag is left to the outer loop |
| Merging.ReachableMessagesAreClean | ChatServer/message.pb.cc:4037-4549 | From default objects, any sequence of parses that end at the window's end or at a stop tag, Clear, MergeFrom and CopyFrom leaves every object clean, recursively, and restorable from its bytes exactly when its length prefixes are readable |
| Merging.CallKeeps | ChatServer/message.pb.cc:4365-4549 | Every single call keeps cleanness and 32-bit-width readability of all objects |
| Merging.MergeKeeps | ChatServer/message.pb.cc:4521-4535 | MergeFrom keeps cleanness and readability |
| Bounds.ParseKeeps | ChatServer/message.pb.cc:4378-4432 | A successful parse keeps the object clean, and its shortest size grows by at most the bytes parsed |
| Bounds.StoppedKeeps | ChatServer/message.pb.cc:4414-4417 | A parse that ends at a stop tag leaves the object as clean as it was |
| Bounds.ApplyKeeps | ChatServer/message.pb.cc:4385-4423 | The same for one record |
| Bounds.StoreKeeps | ChatServer/message.pb.cc:4386-4411 | The same for one field, children included |
| Merging.MergeAssociative | ChatServer/message.pb.cc:5678-5698 | MergeFrom is associative on three messages of a class |
| Merging.DefaultIsUnit | ChatServer/message.pb.cc:5678-5698 | The default instance is a unit of MergeFrom on both sides |
| Merging.MergeTakesLastNonDefault | ChatServer/message.pb.cc:5372-5391 | Numbers, bools and texts take the last non-default value; children and unknown records concatenate |
| RoundTrip.MergeIntoDefault | ChatServer/message.pb.cc:5707-5712 | Merging into what Clear leaves gives the source exactly |
| Merging.EmptyExactly | ChatServer/message.pb.cc:4959-5042 | The size is 0 exactly when nothing is written and exactly when the message equals the default instance |
| RoundTrip.DefaultIsWellFormed | ChatServer/message.pb.cc:4883-4894 | The default instance is well formed and written as nothing |
| Codec.ParseIsInterpret | ChatServer/message.pb.cc:4381-4425 | A window is parsed to its end exactly when it is whole records that all apply, and gives their meaning |
| RoundTrip.RecordsOfEncoding | ChatServer/message.pb.cc:4434-4466 | A well-formed message's serialization splits into exactly its fields' records in number order, then the unknown ones |
| RoundTrip.SlotsOfMessage | ChatServer/message.pb.cc:4434-4466 | Each field of a reader gets exactly the records the writer made of that field |
| RoundTrip.FieldReadBack | ChatServer/message.pb.cc:4386-4450 | One field's written records, read on top of any value, merge the written value in |
| RoundTrip.ChildrenReadBack | ChatServer/message.pb.cc:4401-4458 | Written children are read back after the existing ones, in order |
| Wire.ReadBackVarint | ChatServer/message.pb.cc:4390-4395 | A written varint is read back with what follows left over exactly when it is within the reader's byte count |
| Wire.VarintIsShortest | ChatServer/message.pb.cc:4388-4391 | No bytes that read as v, however padded, are shorter than its written form |
| Wire.NarrowingUndoesWidening | ChatServer/message.pb.cc:6278-6350 | int32 survives sign extension to 64 bits and narrowing, int64 its 64-bit word |
| Wire.LittleEndianReadBack | ChatServer/message.pb.cc:4418-4421 | A fixed-width number kept as unknown is read back from its little-endian bytes |
| Wire.PayloadReadBack | ChatServer/message.pb.cc:4418-4421 | Every payload kind is read back before any suffix |
| Wire.RecordReadBack | ChatServer/message.pb.cc:4383-4421 | Every readable record is read back before any suffix |
| Wire.RecordsReadBack | ChatServer/message.pb.cc:4381-4425 | Written records split into the same records |
| Wire.PayloadAppend | ChatServer/message.pb.cc:4402-4409 | What is read from a window does not depend on the bytes after the window |
| Wire.RecordAppend | ChatServer/message.pb.cc:4381-4425 | The same for a whole record |
| Wire.RecordIsShortest | ChatServer/message.pb.cc:4383-4421 | Rewriting a record never takes more bytes than it was read from |
| Wire.RecordCut | ChatServer/message.pb.cc:4383-4421 | A record cut short cannot be read |
| Wire.RecordsLength | ChatServer/message.pb.cc:4497-4500 | The size computed for records is the number of bytes they are written as |
| Utf8.ValidUtf8Exactly | ChatServer/message.pb.cc:4057 | Text passes the UTF-8 check if and only if it encodes a sequence of Unicode scalar values (section 4 of RFC 3629) |
| Schemas.SchemasAreLegal | ChatServer/message.proto:30-146 | Every modelled class has field numbers that fit a tag, children included |
| WireLaws.ConversionsAreModular | ChatServer/message.pb.cc:6278-6350 | The 64-bit word written for a number differs from it by a multiple of 2^64, the int64 read from a word likewise, the int32 by a multiple of 2^32: with the ranges this is two's complement, sign extension and narrowing |
| WireLaws.ReadersExactly | ChatServer/message.pb.cc:4383-4389 | A varint, padded or not, is the number its seven-bit digits spell; a tag may have five bytes and keeps 32 bits, a number ten bytes and 64 bits, a length five bytes and at most INT_MAX - 16; longer ones are refused |
| WireLaws.ReadersNeedAnEnd | ChatServer/message.pb.cc:4383-4389 | Bytes without a last byte below 128 are neither tag nor number nor length |
| WireLaws.VarintValue | ChatServer/message.pb.cc:4383-4389 | The digits of a varint of at most max bytes are its value, and the rest follows it |
| WireLaws.AfterTag | ChatServer/message.pb.cc:4383-4421 | A tag 8 * n + w is read as field number n and followed by the payload of wire type w; wire type 4 has none |
| WireLaws.VariablePayloads | ChatServer/message.pb.cc:4418-4421 | Wire type 0 is a number, 2 a length and that many bytes; 3, 4 and everything above 5 is no payload |
| WireLaws.FixedPayloads | ChatServer/message.pb.cc:4418-4421 | Wire type 5 takes exactly four bytes, least significant first, and wire type 1 exactly eight; with fewer bytes they fail |
| WireLaws.RecordPrefix | ChatServer/message.pb.cc:4381-4425 | A record read from the front of some bytes is read from its own bytes alone |
| RecordLaws.ExplicitZeroIsDefault | ChatServer/message.pb.cc:2978-2988 | What Clear leaves in a field is what an explicit zero or empty text stores there |
| RecordLaws.StopTagStops | ChatServer/message.pb.cc:4414-4417 | After any accepted input, tag 0 or an end-group tag of any field number stops the parse with the message so far, that tag and the untouched rest |
| RecordLaws.StoppedExactly | ChatServer/message.pb.cc:4414-4417 | A stopped parse has accepted the bytes before a tag that is 0 or an end-group tag, and nothing else stops one |
| RecordLaws.MessageByRecords | ChatServer/message.pb.cc:4381-4425 | An input is accepted exactly when it is whole records with valid text and accepted children, and each field then holds its last number or text, or all its children in order; every other record is kept in order |
| RecordLaws.FieldByRecords | ChatServer/message.pb.cc:4386-4411 | The same for one field |
| RecordLaws.LastNumber | ChatServer/message.pb.cc:4386-4399 | The number of the last record with this field number, or the given one if there is none |
| RecordLaws.LastBytes | ChatServer/message.pb.cc:4053-4060 | The same for length-delimited payloads |
| RecordLaws.AllBytesConcat | ChatServer/message.pb.cc:4401-4411 | The payloads of a field in two inputs are those of the first, then those of the second |
| RecordLaws.UndeclaredConcat | ChatServer/message.pb.cc:4412-4423 | So are the records a class does not declare |
| Framing.FrameSaysSize | ChatServer/message.pb.cc:4456-4457 | Whatever size a child remembers is the length a reader takes it to have |
| Utf8.BytesSpellScalar | ChatServer/message.pb.cc:4057 | The payload bits of a character's bytes spell its scalar value, most significant first, with the lead byte ranges of one to four bytes |
| Merging.CallsAssign | ChatServer/message.pb.cc:5707-5712 | On values CopyFrom assigns the source, Clear the default, MergeFrom the merge, and no other message changes |
| Histories.CallOn | ChatServer/message.pb.cc:4378-4549 | One call by the real InternalParse, Clear, MergeFrom or CopyFrom gives what it gives on values |
| Histories.RunCall | ChatServer/message.pb.cc:4378-4549 | On one of several distinct objects it changes that object only, as After says, and fails exactly when After does |
| Histories.RunCalls | ChatServer/message.pb.cc:4378-4549 | Any sequence of calls leaves the objects with the messages of AfterAll |
| Histories.RunHistory | ChatServer/message.pb.cc:4365-4549 | New objects after any successful calls are clean, and restored by their bytes exactly when these are readable |
| FlatMessages.AddFriendReqByRecords | ChatServer/message.pb.cc:2362-2447 | An AddFriendReq input is accepted exactly when it is whole records whose texts 2 to 5 are valid; applyuid, sex and touid are then the narrowed last numbers 1, 6 and 7, the texts the last ones, the rest unknown |
| FlatMessages.AddFriendReqWritten | ChatServer/message.pb.cc:2449-2519 | It is written as the records of its non-default fields in number order, then the unknown ones |
| Library.ReadVarintLoop | ChatServer/message.pb.cc:4388-4391 | The byte loop gives the varint at the front of the window and the position after it, or fails exactly when there is none of at most max bytes |
| Library.ReadTag | ChatServer/message.pb.cc:4383 | The tag at the front of the window, at most five bytes, modulo 2^32 |
| Library.ReadVarint64 | ChatServer/message.pb.cc:4389 | The number at the front of the window, at most ten bytes, modulo 2^64 |
| Library.ReadSize | ChatServer/message.pb.cc:4406 | A length prefix of at most five bytes and at most the size limit |
| Library.ReadString | ChatServer/message.pb.cc:4056 | The length-prefixed bytes inside the window; refused when they would pass its end |
| Library.UnknownFieldParse | ChatServer/message.pb.cc:4418-4421 | Reads exactly the payload its wire type says, or fails exactly when that cannot be read or the field number is 0 |
| Library.ParseContext.SetLastTag | ChatServer/message.pb.cc:4414-4417 | Remembers the stop tag, less one modulo 2^32; only tag 1, which is no stop tag, would look like the end of the window |
| Library.ParseContext.PushLimit | ChatServer/message.pb.cc:4406 | Narrows the window to the child and returns what restores the parent's limit |
| Library.ParseContext.PopLimit | ChatServer/message.pb.cc:4406 | Restores the parent's limit and accepts only a child that ended at its own |
| Library.WriteVarint | ChatServer/message.pb.cc:4443 | Appends the varint, low seven bits first |
| Library.WriteInt32ToArray | ChatServer/message.pb.cc:4441-4443 | Appends the record of the sign-extended int32 |
| Library.WriteInt64ToArray | ChatServer/message.pb.cc:6346-6350 | Appends the record of the int64 |
| Library.WriteBoolToArray | ChatServer/message.pb.cc:3052-3055 | Appends the record of a bool, 1 or 0 |
| Library.WriteString | ChatServer/message.pb.cc:4127-4132 | Appends the record of a text, valid or not |
| Library.WriteRecord | ChatServer/message.pb.cc:4460-4463 | Appends one unknown record of any kind |
| Library.InternalSerializeUnknownFieldsToArray | ChatServer/message.pb.cc:4460-4463 | Appends all unknown records in order |
| Library.ComputeUnknownFieldsSize | ChatServer/message.pb.cc:4497-4500 | Adds the exact size of the unknown records |
| Library.Int32Size | ChatServer/message.pb.cc:4484-4488 | Ten for a negative int32, else the size of its varint: always the length written |
| Library.NumbersReadBack | ChatServer/message.pb.cc:2990-3107 | int32, int64 and bool come back from their varints before any suffix, with length equal to the size function and between 1 and 10, 1 for a bool, and at most 5 for an int32 exactly when it is not negative |
| ParseSteps.NextTag | ChatServer/message.pb.cc:4382-4384 | One turn of the parse loop: tag read, the rest goes to the dispatch, or the parse has failed |
| ParseSteps.NextInt32 | ChatServer/message.pb.cc:4387-4392 | One int32 field stored, with the rest of the parse unchanged |
| ParseSteps.NextInt64 | ChatServer/message.pb.cc:6276-6282 | One int64 field stored |
| ParseSteps.NextBool | ChatServer/message.pb.cc:3005-3011 | One bool field stored as non-zero |
| ParseSteps.NextText | ChatServer/message.pb.cc:4053-4060 | One text field stored, or failure on invalid UTF-8 |
| ParseSteps.NextUnknown | ChatServer/message.pb.cc:4412-4423 | A tag the class does not expect adds its record to the unknown ones |
| ParseSteps.TagIs | ChatServer/message.pb.cc:4385-4388 | The switch on the field number and the comparison of the low byte together mean equality of tags |
| AuthFriend.AddFriendMsg.constructor | ChatServer/message.pb.cc:3987-3994 | A new AddFriendMsg holds the default instance: every field zero, false or empty |
| AuthFriend.AddFriendMsg.Copy | ChatServer/message.pb.cc:3968-3985 | The copy has equal contents |
| AuthFriend.AddFriendMsg.Clear | ChatServer/message.pb.cc:4023-4035 | The object holds the default instance whatever it held before: every field zero, false or empty |
| AuthFriend.AddFriendMsg.ParseDeclared | ChatServer/message.pb.cc:4037-4111 | The switch takes exactly the tags the class declares; a taken field leaves the rest of the parse unchanged and moves forward inside the window |
| AuthFriend.AddFriendMsgByRecords | ChatServer/message.pb.cc:4037-4111 | Which inputs are accepted, and what every field then holds, by their records: numbers narrowed from the last one, texts the last one, everything undeclared kept |
| AuthFriend.AddFriendMsgWritten | ChatServer/message.pb.cc:4113-4169 | The encoding is the records of the non-default fields in number order, then the unknown ones |
| AuthFriend.AddFriendMsg.InternalParse | ChatServer/message.pb.cc:4037-4111 | Ends, on top of any prior contents, as the specified parse of the window does: at its end, at a stop tag with position and tag, or in failure |
| AuthFriend.AddFriendMsg.InternalSerialize | ChatServer/message.pb.cc:4113-4169 | Appends exactly the records of the non-default fields in number order, each under its own number, and the unknown records: the message's encoding |
| AuthFriend.AddFriendMsg.ByteSizeLong | ChatServer/message.pb.cc:4171-4228 | Returns the exact number of bytes of the encoding, in its own summing order, and caches it |
| AuthFriend.AddFriendMsg.MergeFrom | ChatServer/message.pb.cc:4245-4270 | The contents become the merge of the old contents and the other object's |
| AuthFriend.AddFriendMsg.CopyFrom | ChatServer/message.pb.cc:4279-4284 | The contents equal the source's for any prior contents; copying from itself changes nothing |
| AuthFriend.InternalWriteAddFriendMsgs | ChatServer/message.pb.cc:4452-4458 | Appends the children in order, each prefixed with the size it remembers |
| AuthFriend.AddFriendMsgsByteSize | ChatServer/message.pb.cc:4476-4481 | Counts tags, prefixes and children, and leaves every child's exact size in its cache |
| AuthFriend.CopyAddFriendMsgs | ChatServer/message.pb.cc:4528 | New children with equal contents in the same order |
| AuthFriend.AddFriendMsgsHold | ChatServer/message.pb.cc:4401-4411 | Children parsed from payloads hold, field by field, what the records of their payloads say |
| AuthFriend.AddFriendMsgsWritten | ChatServer/message.pb.cc:4452-4458 | Children are written as one record each, holding the records of their fields |
| AuthFriend.ParseAddFriendMsg | ChatServer/message.pb.cc:4401-4411 | A child ends exactly at the end of its declared window, and its result depends on that window alone; the parent's limit is restored |
| AuthFriend.AddParsedAddFriendMsg | ChatServer/message.pb.cc:4401-4411 | One more child after the existing ones, parsed from its window, or failure |
| AuthFriend.ParseAddFriendMsgs | ChatServer/message.pb.cc:4401-4411 | The loop that compares the next byte only adds the children and stops at the position that the fast run specifies |
| AuthFriend.NextAddFriendMsgs | ChatServer/message.pb.cc:4401-4411 | A field of children read by that loop leaves the rest of the parse unchanged, or the parse fails |
| AuthFriend.AuthFriendReq.constructor | ChatServer/message.pb.cc:4333-4338 | A new AuthFriendReq holds the default instance: every field zero, false or empty |
| AuthFriend.AuthFriendReq.Copy | ChatServer/message.pb.cc:4323-4331 | The copy has equal contents, in children of its own |
| AuthFriend.AuthFriendReq.Clear | ChatServer/message.pb.cc:4365-4376 | The object holds the default instance whatever it held before: every field zero, false or empty |
| AuthFriend.AuthFriendReq.ParseDeclared | ChatServer/message.pb.cc:4378-4432 | The switch takes exactly the tags the class declares; a taken field leaves the rest of the parse unchanged and moves forward inside the window |
| AuthFriend.AuthFriendReqByRecords | ChatServer/message.pb.cc:4378-4432 | Which inputs are accepted, and what every field then holds, by their records: numbers narrowed from the last one, texts the last one, all children, everything undeclared kept |
| AuthFriend.AuthFriendReqFramedBytes | ChatServer/message.pb.cc:4434-4466 | What the serializer writes, as the records of the fields, the framed children and the unknown records |
| AuthFriend.AuthFriendReqBytes | ChatServer/message.pb.cc:4434-4466 | The encoding is the records of the fields, one record for each child holding the records of its fields, and the unknown records |
| AuthFriend.AuthFriendReq.InternalParse | ChatServer/message.pb.cc:4378-4432 | Ends, on top of any prior contents, as the specified parse of the window does: at its end, at a stop tag with position and tag, or in failure |
| AuthFriend.AuthFriendReq.InternalSerialize | ChatServer/message.pb.cc:4434-4466 | Appends the records of the non-default fields in number order, the children framed with the sizes they remember, and the unknown records |
| AuthFriend.AuthFriendReq.ByteSizeLong | ChatServer/message.pb.cc:4468-4504 | Returns the exact number of bytes of the encoding, in its own summing order, and caches it; leaves every child's cached size exact |
| AuthFriend.AuthFriendReq.MergeFrom | ChatServer/message.pb.cc:4521-4535 | The contents become the merge of the old contents and the other object's, with copied children |
| AuthFriend.AuthFriendReq.CopyFrom | ChatServer/message.pb.cc:4544-4549 | The contents equal the source's for any prior contents; copying from itself changes nothing, otherwise the children are new objects |
| AuthFriend.AuthFriendReq.ParseFromBytes | ChatServer/message.pb.cc:4378-4432 | Accepts a buffer exactly when it is whole records with valid text and acceptable children; each field then holds the last number or text recorded under its own number, or the default, the children those of their payloads in order, and unknown the rest |
| AuthFriend.AuthFriendReq.SerializeToBytes | ChatServer/message.pb.cc:4434-4504 | Measures, then writes: the output is the encoding, record by record the fields, the children and the unknown ones, for contents and caches in any state |
| TextChat.TextChatData.constructor | ChatServer/message.pb.cc:5149-5155 | A new TextChatData holds the default instance: every field zero, false or empty |
| TextChat.TextChatData.Copy | ChatServer/message.pb.cc:5127-5147 | The copy has equal contents |
| TextChat.TextChatData.Clear | ChatServer/message.pb.cc:5185-5196 | The object holds the default instance whatever it held before: every field zero, false or empty |
| TextChat.TextChatData.ParseDeclared | ChatServer/message.pb.cc:5198-5260 | The switch takes exactly the tags the class declares; a taken field leaves the rest of the parse unchanged and moves forward inside the window |
| TextChat.TextChatDataByRecords | ChatServer/message.pb.cc:5198-5260 | Which inputs are accepted, and what every field then holds, by their records: numbers narrowed from the last one, texts the last one, everything undeclared kept |
| TextChat.TextChatDataWritten | ChatServer/message.pb.cc:5262-5310 | The encoding is the records of the non-default fields in number order, then the unknown ones |
| TextChat.TextChatData.InternalParse | ChatServer/message.pb.cc:5198-5260 | Ends, on top of any prior contents, as the specified parse of the window does: at its end, at a stop tag with position and tag, or in failure |
| TextChat.TextChatData.InternalSerialize | ChatServer/message.pb.cc:5262-5310 | Appends exactly the records of the non-default fields in number order, each under its own number, and the unknown records: the message's encoding |
| TextChat.TextChatData.ByteSizeLong | ChatServer/message.pb.cc:5312-5355 | Returns the exact number of bytes of the encoding, in its own summing order, and caches it |
| TextChat.TextChatData.MergeFrom | ChatServer/message.pb.cc:5372-5391 | The contents become the merge of the old contents and the other object's |
| TextChat.TextChatData.CopyFrom | ChatServer/message.pb.cc:5400-5405 | The contents equal the source's for any prior contents; copying from itself changes nothing |
| TextChat.InternalWriteTextChatDatas | ChatServer/message.pb.cc:4983-4989 | Appends the children in order, each prefixed with the size it remembers |
| TextChat.TextChatDatasByteSize | ChatServer/message.pb.cc:5007-5012 | Counts tags, prefixes and children, and leaves every child's exact size in its cache |
| TextChat.CopyTextChatDatas | ChatServer/message.pb.cc:5066 | New children with equal contents in the same order |
| TextChat.TextChatDatasHold | ChatServer/message.pb.cc:4926-4936 | Children parsed from payloads hold, field by field, what the records of their payloads say |
| TextChat.TextChatDatasWritten | ChatServer/message.pb.cc:4982-4988 | Children are written as one record each, holding the records of their fields |
| TextChat.ParseTextChatData | ChatServer/message.pb.cc:4926-4936 | A child ends exactly at the end of its declared window, and its result depends on that window alone; the parent's limit is restored |
| TextChat.AddParsedTextChatData | ChatServer/message.pb.cc:4926-4936 | One more child after the existing ones, parsed from its window, or failure |
| TextChat.ParseTextChatDatas | ChatServer/message.pb.cc:4926-4936 | The loop that compares the next byte only adds the children and stops at the position that the fast run specifies |
| TextChat.NextTextChatDatas | ChatServer/message.pb.cc:4926-4936 | A field of children read by that loop leaves the rest of the parse unchanged, or the parse fails |
| TextChat.TextChatMsgReq.constructor | ChatServer/message.pb.cc:4851-4856 | A new TextChatMsgReq holds the default instance: every field zero, false or empty |
| TextChat.TextChatMsgReq.Copy | ChatServer/message.pb.cc:4841-4849 | The copy has equal contents, in children of its own |
| TextChat.TextChatMsgReq.Clear | ChatServer/message.pb.cc:4883-4894 | The object holds the default instance whatever it held before: every field zero, false or empty |
| TextChat.TextChatMsgReq.ParseDeclared | ChatServer/message.pb.cc:4896-4957 | The switch takes exactly the tags the class declares; a taken field leaves the rest of the parse unchanged and moves forward inside the window |
| TextChat.TextChatMsgReqByRecords | ChatServer/message.pb.cc:4896-4957 | Which inputs are accepted, and what every field then holds, by their records: numbers narrowed from the last one, texts the last one, all children, everything undeclared kept |
| TextChat.TextChatMsgReqFramedBytes | ChatServer/message.pb.cc:4959-4997 | What the serializer writes, as the records of the fields, the framed children and the unknown records |
| TextChat.TextChatMsgReqBytes | ChatServer/message.pb.cc:4959-4997 | The encoding is the records of the fields, one record for each child holding the records of its fields, and the unknown records |
| TextChat.TextChatMsgReq.InternalParse | ChatServer/message.pb.cc:4896-4957 | Ends, on top of any prior contents, as the specified parse of the window does: at its end, at a stop tag with position and tag, or in failure |
| TextChat.TextChatMsgReq.InternalSerialize | ChatServer/message.pb.cc:4959-4997 | Appends the records of the non-default fields in number order, the children framed with the sizes they remember, and the unknown records |
| TextChat.TextChatMsgReq.ByteSizeLong | ChatServer/message.pb.cc:4999-5042 | Returns the exact number of bytes of the encoding, in its own summing order, and caches it; leaves every child's cached size exact |
| TextChat.TextChatMsgReq.MergeFrom | ChatServer/message.pb.cc:5059-5076 | The contents become the merge of the old contents and the other object's, with copied children |
| TextChat.TextChatMsgReq.CopyFrom | ChatServer/message.pb.cc:5085-5090 | The contents equal the source's for any prior contents; copying from itself changes nothing, otherwise the children are new objects |
| TextChat.TextChatMsgReq.ParseFromBytes | ChatServer/message.pb.cc:4896-4957 | Accepts a buffer exactly when it is whole records with valid text and acceptable children; each field then holds the last number or text recorded under its own number, or the default, the children those of their payloads in order, and unknown the rest |
| TextChat.TextChatMsgReq.SerializeToBytes | ChatServer/message.pb.cc:4959-5042 | Measures, then writes: the output is the encoding, record by record the fields, the children and the unknown ones, for contents and caches in any state |
| TextChat.TextChatMsgRsp.constructor | ChatServer/message.pb.cc:5450-5455 | A new TextChatMsgRsp holds the default instance: every field zero, false or empty |
| TextChat.TextChatMsgRsp.Copy | ChatServer/message.pb.cc:5440-5448 | The copy has equal contents, in children of its own |
| TextChat.TextChatMsgRsp.Clear | ChatServer/message.pb.cc:5482-5493 | The object holds the default instance whatever it held before: every field zero, false or empty |
| TextChat.TextChatMsgRsp.ParseDeclared | ChatServer/message.pb.cc:5495-5563 | The switch takes exactly the tags the class declares; a taken field leaves the rest of the parse unchanged and moves forward inside the window |
| TextChat.TextChatMsgRspByRecords | ChatServer/message.pb.cc:5495-5563 | Which inputs are accepted, and what every field then holds, by their records: numbers narrowed from the last one, texts the last one, all children, everything undeclared kept |
| TextChat.TextChatMsgRspFramedBytes | ChatServer/message.pb.cc:5565-5609 | What the serializer writes, as the records of the fields, the framed children and the unknown records |
| TextChat.TextChatMsgRspBytes | ChatServer/message.pb.cc:5565-5609 | The encoding is the records of the fields, one record for each child holding the records of its fields, and the unknown records |
| TextChat.TextChatMsgRsp.InternalParse | ChatServer/message.pb.cc:5495-5563 | Ends, on top of any prior contents, as the specified parse of the window does: at its end, at a stop tag with position and tag, or in failure |
| TextChat.TextChatMsgRsp.InternalSerialize | ChatServer/message.pb.cc:5565-5609 | Appends the records of the non-default fields in number order, the children framed with the sizes they remember, and the unknown records |
| TextChat.TextChatMsgRsp.ByteSizeLong | ChatServer/message.pb.cc:5611-5661 | Returns the exact number of bytes of the encoding, in its own summing order, and caches it; leaves every child's cached size exact |
| TextChat.TextChatMsgRsp.MergeFrom | ChatServer/message.pb.cc:5678-5698 | The contents become the merge of the old contents and the other object's, with copied children |
| TextChat.TextChatMsgRsp.CopyFrom | ChatServer/message.pb.cc:5707-5712 | The contents equal the source's for any prior contents; copying from itself changes nothing, otherwise the children are new objects |
| TextChat.TextChatMsgRsp.ParseFromBytes | ChatServer/message.pb.cc:5495-5563 | Accepts a buffer exactly when it is whole records with valid text and acceptable children; each field then holds the last number or text recorded under its own number, or the default, the children those of their payloads in order, and unknown the rest |
| TextChat.TextChatMsgRsp.SerializeToBytes | ChatServer/message.pb.cc:5565-5661 | Measures, then writes: the output is the encoding, record by record the fields, the children and the unknown ones, for contents and caches in any state |
| FlatMessages.RplyFriendReq.constructor | ChatServer/message.pb.cc:2947-2951 | A new RplyFriendReq holds the default instance: every field zero, false or empty |
| FlatMessages.RplyFriendReq.Copy | ChatServer/message.pb.cc:2938-2945 | The copy has equal contents |
| FlatMessages.RplyFriendReq.Clear | ChatServer/message.pb.cc:2978-2988 | The object holds the default instance whatever it held before: every field zero, false or empty |
| FlatMessages.RplyFriendReq.ParseDeclared | ChatServer/message.pb.cc:2990-3039 | The switch takes exactly the tags the class declares; a taken field leaves the rest of the parse unchanged and moves forward inside the window |
| FlatMessages.RplyFriendReqByRecords | ChatServer/message.pb.cc:2990-3039 | Which inputs are accepted, and what every field then holds, by their records: numbers narrowed from the last one, texts the last one, everything undeclared kept |
| FlatMessages.RplyFriendReqWritten | ChatServer/message.pb.cc:3041-3071 | The encoding is the records of the non-default fields in number order, then the unknown ones |
| FlatMessages.RplyFriendReq.InternalParse | ChatServer/message.pb.cc:2990-3039 | Ends, on top of any prior contents, as the specified parse of the window does: at its end, at a stop tag with position and tag, or in failure |
| FlatMessages.RplyFriendReq.InternalSerialize | ChatServer/message.pb.cc:3041-3071 | Appends exactly the records of the non-default fields in number order, each under its own number, and the unknown records: the message's encoding |
| FlatMessages.RplyFriendReq.ByteSizeLong | ChatServer/message.pb.cc:3073-3107 | Returns the exact number of bytes of the encoding, in its own summing order, and caches it |
| FlatMessages.RplyFriendReq.MergeFrom | ChatServer/message.pb.cc:3124-3140 | The contents become the merge of the old contents and the other object's |
| FlatMessages.RplyFriendReq.CopyFrom | ChatServer/message.pb.cc:3149-3154 | The contents equal the source's for any prior contents; copying from itself changes nothing |
| FlatMessages.RplyFriendReq.ParseFromBytes | ChatServer/message.pb.cc:2990-3039 | Accepts a buffer exactly when it is whole records with valid text; each field then holds the last number or text recorded under its own number, or the default, and unknown the rest |
| FlatMessages.RplyFriendReq.SerializeToBytes | ChatServer/message.pb.cc:3041-3107 | Measures, then writes: the output is the encoding, for contents and caches in any state |
| FlatMessages.NotifyChatImgReq.constructor | ChatServer/message.pb.cc:6191-6197 | A new NotifyChatImgReq holds the default instance: every field zero, false or empty |
| FlatMessages.NotifyChatImgReq.Copy | ChatServer/message.pb.cc:6177-6189 | The copy has equal contents |
| FlatMessages.NotifyChatImgReq.Clear | ChatServer/message.pb.cc:6225-6236 | The object holds the default instance whatever it held before: every field zero, false or empty |
| FlatMessages.NotifyChatImgReq.ParseDeclared | ChatServer/message.pb.cc:6238-6310 | The switch takes exactly the tags the class declares; a taken field leaves the rest of the parse unchanged and moves forward inside the window |
| FlatMessages.NotifyChatImgReqByRecords | ChatServer/message.pb.cc:6238-6310 | Which inputs are accepted, and what every field then holds, by their records: numbers narrowed from the last one, texts the last one, everything undeclared kept |
| FlatMessages.NotifyChatImgReqWritten | ChatServer/message.pb.cc:6312-6364 | The encoding is the records of the non-default fields in number order, then the unknown ones |
| FlatMessages.NotifyChatImgReq.InternalParse | ChatServer/message.pb.cc:6238-6310 | Ends, on top of any prior contents, as the specified parse of the window does: at its end, at a stop tag with position and tag, or in failure |
| FlatMessages.NotifyChatImgReq.InternalSerialize | ChatServer/message.pb.cc:6312-6364 | Appends exactly the records of the non-default fields in number order, each under its own number, and the unknown records: the message's encoding |
| FlatMessages.NotifyChatImgReq.ByteSizeLong | ChatServer/message.pb.cc:6366-6423 | Returns the exact number of bytes of the encoding, in its own summing order, and caches it |
| FlatMessages.NotifyChatImgReq.MergeFrom | ChatServer/message.pb.cc:6440-6465 | The contents become the merge of the old contents and the other object's |
| FlatMessages.NotifyChatImgReq.CopyFrom | ChatServer/message.pb.cc:6474-6479 | The contents equal the source's for any prior contents; copying from itself changes nothing |
| FlatMessages.NotifyChatImgReq.ParseFromBytes | ChatServer/message.pb.cc:6238-6310 | Accepts a buffer exactly when it is whole records with valid text; each field then holds the last number or text recorded under its own number, or the default, and unknown the rest |
| FlatMessages.NotifyChatImgReq.SerializeToBytes | ChatServer/message.pb.cc:6312-6423 | Measures, then writes: the output is the encoding, for contents and caches in any state |
| FlatMessages.AddFriendRsp.constructor | ChatServer/message.pb.cc:2693-2697 | A new AddFriendRsp holds the default instance: every field zero, false or empty |
| FlatMessages.AddFriendRsp.Copy | ChatServer/message.pb.cc:2684-2691 | The copy has equal contents |
| FlatMessages.AddFriendRsp.Clear | ChatServer/message.pb.cc:2724-2734 | The object holds the default instance whatever it held before: every field zero, false or empty |
| FlatMessages.AddFriendRsp.ParseDeclared | ChatServer/message.pb.cc:2736-2785 | The switch takes exactly the tags the class declares; a taken field leaves the rest of the parse unchanged and moves forward inside the window |
| FlatMessages.AddFriendRspByRecords | ChatServer/message.pb.cc:2736-2785 | Which inputs are accepted, and what every field then holds, by their records: numbers narrowed from the last one, texts the last one, everything undeclared kept |
| FlatMessages.AddFriendRspWritten | ChatServer/message.pb.cc:2787-2817 | The encoding is the records of the non-default fields in number order, then the unknown ones |
| FlatMessages.AddFriendRsp.InternalParse | ChatServer/message.pb.cc:2736-2785 | Ends, on top of any prior contents, as the specified parse of the window does: at its end, at a stop tag with position and tag, or in failure |
| FlatMessages.AddFriendRsp.InternalSerialize | ChatServer/message.pb.cc:2787-2817 | Appends exactly the records of the non-default fields in number order, each under its own number, and the unknown records: the message's encoding |
| FlatMessages.AddFriendRsp.ByteSizeLong | ChatServer/message.pb.cc:2819-2855 | Returns the exact number of bytes of the encoding, in its own summing order, and caches it |
| FlatMessages.AddFriendRsp.MergeFrom | ChatServer/message.pb.cc:2872-2888 | The contents become the merge of the old contents and the other object's |
| FlatMessages.AddFriendRsp.CopyFrom | ChatServer/message.pb.cc:2897-2902 | The contents equal the source's for any prior contents; copying from itself changes nothing |
| FlatMessages.AddFriendRsp.ParseFromBytes | ChatServer/message.pb.cc:2736-2785 | Accepts a buffer exactly when it is whole records with valid text; each field then holds the last number or text recorded under its own number, or the default, and unknown the rest |
| FlatMessages.AddFriendRsp.SerializeToBytes | ChatServer/message.pb.cc:2787-2855 | Measures, then writes: the output is the encoding, for contents and caches in any state |
| FlatMessages.LoginReq.constructor | ChatServer/message.pb.cc:1783-1787 | A new LoginReq holds the default instance: every field zero, false or empty |
| FlatMessages.LoginReq.Copy | ChatServer/message.pb.cc:1771-1781 | The copy has equal contents |
| FlatMessages.LoginReq.Clear | ChatServer/message.pb.cc:1815-1824 | The object holds the default instance whatever it held before: every field zero, false or empty |
| FlatMessages.LoginReq.ParseDeclared | ChatServer/message.pb.cc:1826-1870 | The switch takes exactly the tags the class declares; a taken field leaves the rest of the parse unchanged and moves forward inside the window |
| FlatMessages.LoginReqByRecords | ChatServer/message.pb.cc:1826-1870 | Which inputs are accepted, and what every field then holds, by their records: numbers narrowed from the last one, texts the last one, everything undeclared kept |
| FlatMessages.LoginReqWritten | ChatServer/message.pb.cc:1872-1900 | The encoding is the records of the non-default fields in number order, then the unknown ones |
| FlatMessages.LoginReq.InternalParse | ChatServer/message.pb.cc:1826-1870 | Ends, on top of any prior contents, as the specified parse of the window does: at its end, at a stop tag with position and tag, or in failure |
| FlatMessages.LoginReq.InternalSerialize | ChatServer/message.pb.cc:1872-1900 | Appends exactly the records of the non-default fields in number order, each under its own number, and the unknown records: the message's encoding |
| FlatMessages.LoginReq.ByteSizeLong | ChatServer/message.pb.cc:1902-1931 | Returns the exact number of bytes of the encoding, in its own summing order, and caches it |
| FlatMessages.LoginReq.MergeFrom | ChatServer/message.pb.cc:1948-1961 | The contents become the merge of the old contents and the other object's |
| FlatMessages.LoginReq.CopyFrom | ChatServer/message.pb.cc:1970-1975 | The contents equal the source's for any prior contents; copying from itself changes nothing |
| FlatMessages.LoginReq.ParseFromBytes | ChatServer/message.pb.cc:1826-1870 | Accepts a buffer exactly when it is whole records with valid text; each field then holds the last number or text recorded under its own number, or the default, and unknown the rest |
| FlatMessages.LoginReq.SerializeToBytes | ChatServer/message.pb.cc:1872-1931 | Measures, then writes: the output is the encoding, for contents and caches in any state |
| FlatMessages.KickUserReq.constructor | ChatServer/message.pb.cc:5756-5758 | A new KickUserReq holds the default instance: every field zero, false or empty |
| FlatMessages.KickUserReq.Copy | ChatServer/message.pb.cc:5749-5754 | The copy has equal contents |
| FlatMessages.KickUserReq.Clear | ChatServer/message.pb.cc:5785-5793 | The object holds the default instance whatever it held before: every field zero, false or empty |
| FlatMessages.KickUserReq.ParseDeclared | ChatServer/message.pb.cc:5795-5830 | The switch takes exactly the tags the class declares; a taken field leaves the rest of the parse unchanged and moves forward inside the window |
| FlatMessages.KickUserReqByRecords | ChatServer/message.pb.cc:5795-5830 | Which inputs are accepted, and what every field then holds, by their records: numbers narrowed from the last one, texts the last one, everything undeclared kept |
| FlatMessages.KickUserReqWritten | ChatServer/message.pb.cc:5832-5850 | The encoding is the records of the non-default fields in number order, then the unknown ones |
| FlatMessages.KickUserReq.InternalParse | ChatServer/message.pb.cc:5795-5830 | Ends, on top of any prior contents, as the specified parse of the window does: at its end, at a stop tag with position and tag, or in failure |
| FlatMessages.KickUserReq.InternalSerialize | ChatServer/message.pb.cc:5832-5850 | Appends exactly the records of the non-default fields in number order, each under its own number, and the unknown records: the message's encoding |
| FlatMessages.KickUserReq.ByteSizeLong | ChatServer/message.pb.cc:5852-5874 | Returns the exact number of bytes of the encoding, in its own summing order, and caches it |
| FlatMessages.KickUserReq.MergeFrom | ChatServer/message.pb.cc:5891-5901 | The contents become the merge of the old contents and the other object's |
| FlatMessages.KickUserReq.CopyFrom | ChatServer/message.pb.cc:5910-5915 | The contents equal the source's for any prior contents; copying from itself changes nothing |
| FlatMessages.KickUserReq.ParseFromBytes | ChatServer/message.pb.cc:5795-5830 | Accepts a buffer exactly when it is whole records with valid text; each field then holds the last number or text recorded under its own number, or the default, and unknown the rest |
| FlatMessages.KickUserReq.SerializeToBytes | ChatServer/message.pb.cc:5832-5874 | Measures, then writes: the output is the encoding, for contents and caches in any state |

## Left out

- UnknownFieldParse: refuses a start-group tag, which the runtime would read as a nested set of unknown fields; groups are not modelled beyond the rule that an end-group tag stops a parse.
- AddFriendReq: covered by the theorems through its schema, without a class, because its methods have the shape of AddFriendMsg's.
- The remaining message classes (verification codes, chat server lookup, LoginRsp, RplyFriendRsp, SendChatMsg, AuthFriendRsp, KickUserRsp, NotifyChatImgRsp): the same shapes with other field lists.
- Arenas, release and set_allocated, reflection, descriptors, default-instance registration: bookkeeping without a meaning for the codec.
- Setters, clear accessors, Swap and move assignment: single assignments that would add only easy members; memset and memswap over several fields are modelled as one assignment per field.
- MergeFrom: requires a source other than the target, as the code's debug check does; a release build would merge an object into itself.
- MergeFrom and CopyFrom through a base-class reference, which go by dynamic cast and reflection.
- Input patch buffers and output chunks: the input is a byte sequence with an index and a limit, the output an appended sequence. The runtime's readers may look past the window and report that afterwards; the modelled readers stop at its end, with the same acceptance.
- InternalParse: what an object holds after a failed parse is not stated. The code stores a text before it checks it (`ChatServer/message.pb.cc:4056-4057`), so such an object may hold invalid text until it is cleared; what a failed number or length leaves behind is up to the runtime.
- WriteString: a text of 4 GiB or more is written in full behind its narrowed length; the runtime narrows the number of bytes it copies as well.
- Recursion depth: the runtime refuses more than 100 levels of nesting; the modelled classes nest two.
- RepeatedPtrField's reuse of cleared child objects: a cleared list is empty and new children are new objects.
- Children shared between two parents or held twice by one: the code cannot build them; contents are stated for any list of children.
- ByteSizeLong: sums are unbounded integers, so a total past 2^64 does not wrap.
- gRPC stubs, servers, database and cache clients, thread pools and start-up code: input and output around the codec.
