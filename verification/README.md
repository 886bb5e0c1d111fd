# Flare's wire formats and step protocols, verified

Flare is a runner for Apache Beam pipelines. It talks to SDK workers in Beam's standard
coders, stores elements and keys under bytes those coders produce, and fails a bundle when
a worker falls silent. This project models that core in Dafny and proves it correct for
every input, every message boundary and every interleaving.

| module | models |
|---|---|
| `Bytes`, `Varint`, `Utf8` | machine integers, big-endian fields, base-128 varints (the "Base 128 Varints" section of the Protocol Buffers encoding guide), UTF-8 (section 4 of RFC 3629) |
| `Coders`, `CoderIo` | the fifteen coders: records to bytes, bytes to records in nested and element context, keys; as functions, and as the methods that append to and advance a buffer |
| `CoderLaws`, `CoderTheorems`, `CoderLocality`, `Truncation` | round trips, canonical forms, self-delimitation, what a cut does to a decoder |
| `WireFormat` | the formats in literal numbers: which lists and keys are taken, the bytes of every leaf, what each URN resolves to |
| `WindowKeys`, `Panes`, `WindowedValues`, `TimerCodec`, `WindowedIo` | window identity keys, pane info, windowed values and their streams, timers, and the loops over them |
| `Reassembly` | the receive loop, which decodes elements from data messages that cut the stream anywhere |
| `CoderGraph`, `CoderWrap` | resolution of coder ids and the rewrite that length-prefixes pickled leaves |
| `Schemas` | schema resolution and encoding order |
| `Liveness` | the idle guard as a timed state machine |
| `DynamicSplit`, `BufferAndFire` | the two step protocols of the Python examples |

## How the code is read

- A decoder maps the buffer to `Done(value, rest)` or `Failed(why)`. `why` tells a panic (a
  buffer under-run, an over-long varint, a negative list count) from a returned error,
  because the receive loop treats the two differently. An encoder that panics is `None`.
- A Rust `String` is its UTF-8 bytes. A double is its bit pattern, as its equality and hash
  in `flaredb/src/store/record.rs` are.
- Integers have the width the code gives them. The shift-and-or of the varint loop is a sum
  modulo 2^64; flipping the sign bit adds 2^63; the span of an interval window wraps as
  release builds do; a list count written as `i32` is checked, a window count is cast.
- `Sendable(c, r, last)` says exactly when `r` survives coder `c` in its context: opaque Java
  bytes carry no length, so they must have nothing behind them (`last`). `Delimiting(c, false)`
  says that a coder has no such leaf. `Normal(c, r)` turns a grouped record under a
  key-value coder into the key-value record it decodes to.
- A hash map is visited in an arbitrary order. A fixed order is never assumed.

## Where code and documentation part

- The rewrite of pickled leaves is described as idempotent. It is exactly when no coder it
  touches uses a leaf whose wrapper name is itself a pickled leaf (`CoderGraph.IdempotentIffSettled`);
  `CoderGraph.RewriteNotIdempotent` gives a map on which it is not.
- A wrapper name that another coder already has can make coders use each other, and resolving
  an id that resolved before then never returns (`CoderGraph.RewriteMakesACycle`).
  `CoderGraph.ResolutionSurvivesIff` says exactly when every id that resolved still does.
- The boundary coder of an id is described as its length-prefixed wrapper if one exists. An id
  that is no pickled leaf gets whatever coder has that name (`CoderGraph.BoundaryPicksUnrelated`);
  `CoderGraph.BoundaryMeaning` covers both cases, and `CoderGraph.BoundaryIdExact` is the
  condition between them.
- The idle guard is described as returning a bundle's result as soon as it is ready. A ready
  bundle is failed exactly when the race looks at an idle clock first (`Liveness.IdleGuard`,
  `Liveness.ReadyBundleMayFail`).
- The receive loop is described as waiting for more data when an element spans messages.
  A message that ends between a length varint and the end of its payload, or anywhere
  between the start and the end of a double, makes the decoder return an error rather than
  panic, and the loop then fails the bundle (`Reassembly.SplitPayloadFailsBundle`,
  `Reassembly.DoubleCutAtItsStart`). `Reassembly.ReceivesUnlessACutBreaks` is exact for every
  self-delimiting coder, every stream and every segmentation, in terms of the offsets at
  which messages end.
- A list read in chunks may be longer than the 32-bit count its re-encoding needs, so
  decoding and encoding again panics exactly on such lists (`CoderTheorems.DecodeThenEncode`,
  `CoderTheorems.ChunkedListTooLong`).
- The timers example promises one flush per key. It verifies exactly when no key is empty
  and no key receives an element after its timer has fired (`BufferAndFire.VerifiesIffQuiet`);
  `BufferAndFire.LateElementFailsVerify` is a run on which it does not.

## Model

| member | source | states |
|---|---|---|
| `Varint.RoundTrip` | flaredb/src/coders/primitives.rs:1097-1131 | every u64 decodes from its varint, leaving exactly what follows |
| `Varint.PrefixFree` | flaredb/src/coders/primitives.rs:1097-1112 | no varint is a prefix of another number's varint |
| `Varint.AtMostTenBytes` | flaredb/src/coders/primitives.rs:1097-1112 | one to ten bytes |
| `Varint.VarintDigits` | flaredb/src/coders/primitives.rs:1097-1112 | every byte carries seven bits, the lowest first, the top bit set on all but the last, and no byte is spent on leading zeros |
| `Varint.EleventhBytePanics` | flaredb/src/coders/primitives.rs:1114-1131 | ten bytes that all continue are no varint |
| `Varint.NegativeTakesTen` | flaredb/src/coders/primitives.rs:87-93 | a negative i64 takes ten bytes |
| `Varint.Shortest` | flaredb/src/coders/primitives.rs:1097-1131 | of all byte strings that decode to a value the encoder's is shortest |
| `Varint.DecodeLocal` | flaredb/src/coders/primitives.rs:1114-1131 | any accepted varint, minimal or not, is read from its own bytes alone |
| `Varint.SignedRoundTrip` | flaredb/src/coders/primitives.rs:1089-1095 | every i64 round-trips |
| `Varint.RoundTrip32` | flaredb/src/coders/primitives.rs:97-119 | the 32-bit coder returns a value exactly when it is an i32 |
| `Varint.SameBytesIffNonNegative` | flaredb/src/coders/primitives.rs:87-105 | on i32 the 32- and 64-bit coders agree exactly on non-negative values |
| `Varint.Decode32AcceptsTheImage` | flaredb/src/coders/primitives.rs:97-119 | the 32-bit decoder accepts exactly the varints of numbers its encoder writes for some i32, and yields that i32 |
| `Varint.DelimitedRoundTrip` | flaredb/src/coders/primitives.rs:1133-1150 | length-prefixed bytes round-trip before any suffix |
| `Varint.PutVarint` | flaredb/src/coders/primitives.rs:1097-1112 | the loop appends the varint of its argument |
| `Varint.GetVarint` | flaredb/src/coders/primitives.rs:1114-1131 | the loop returns and consumes what the decoder prescribes, or faults as it does |
| `Varint.GetDelimited` | flaredb/src/coders/primitives.rs:1133-1150 | the same for a length-prefixed slice, with its error on a length beyond the buffer |
| `Utf8.ValidIffText` | flaredb/src/coders/primitives.rs:34-39 | the bytes accepted as a string are exactly the encodings of sequences of Unicode scalar values |
| `CoderLaws.RoundTrip` | flaredb/src/coders/mod.rs:257-438 | every sendable record under every coder tree, before any suffix, decodes to its normal form and leaves exactly the suffix |
| `CoderLaws.TypedRoundTrip` | flaredb/src/coders/mod.rs:257-438 | with self-delimiting coders every well-typed record is sendable, whatever follows |
| `CoderTheorems.RoundTripExactly` | flaredb/src/coders/mod.rs:257-438 | a well-typed record round-trips before a suffix if and only if it is sendable there |
| `CoderLaws.EncodeNormal` | flaredb/src/coders/mod.rs:270-300 | a record and its normal form have the same bytes |
| `CoderLaws.DecodeCanonical` | flaredb/src/coders/mod.rs:390-438 | whatever decodes, from any bytes, is normal and, if its lists fit, sendable where it was read |
| `CoderTheorems.DecodeThenEncode` | flaredb/src/coders/mod.rs:390-438 | every decoded record is normal; it re-encodes, is well typed and decodes to itself exactly when its lists fit 32-bit counts |
| `CoderTheorems.ChunkedListTooLong` | flaredb/src/coders/primitives.rs:172-207 | fifteen bytes that decode to a list which cannot be encoded again |
| `CoderTheorems.ChunkedListLikeCounted` | flaredb/src/coders/primitives.rs:182-213 | however a list is cut into chunks it decodes like the counted list |
| `CoderTheorems.KeyRedecodes` | flaredb/src/coders/mod.rs:215-237 | a decoded key is well typed, and encoding and decoding it again returns it |
| `CoderTheorems.GroupingAgrees` | flaredb/src/coders/mod.rs:197-237 | two wire keys are stored as equal keys if and only if they decode to the same record |
| `CoderTheorems.StoredKeyReads` | flaredb/src/coders/mod.rs:215-237 | the stored bytes of a composite key are a complete encoding of what was on the wire |
| `CoderTheorems.ElementAgrees` | flaredb/src/coders/mod.rs:352-388 | element and nested decoding agree on every input unless the spine of values ends in String or Bytes |
| `CoderTheorems.ElementReadsRaw` | flaredb/src/coders/mod.rs:352-388 | there, dropping the last length prefix gives bytes that element decoding consumes whole |
| `CoderTheorems.ElementRefinesNested` | flaredb/src/coders/mod.rs:352-388 | and it maps them to the record nested decoding gives |
| `WireFormat.IterableEncodesIff` | flaredb/src/coders/primitives.rs:172-180 | a list is written exactly when it has fewer than 2^31 elements and each is written |
| `WireFormat.GroupedEncodesIff` | flaredb/src/coders/mod.rs:270-303 | the same for grouped records, under their own coder and under a key-value coder |
| `WireFormat.ListsFitIff` | flaredb/src/coders/primitives.rs:172-180 | the lists that can be written again, at every depth, by number |
| `WireFormat.ListBytes` | flaredb/src/coders/primitives.rs:172-180 | four bytes of length, most significant first, then the elements |
| `WireFormat.CountBytes` | flaredb/src/coders/primitives.rs:182-213 | what the four bytes of a count mean: a number, chunks when all ones, a panic otherwise |
| `WireFormat.KeyKept` | flaredb/src/coders/mod.rs:197-226 | a primitive key is kept typed, a composite one as its canonical bytes, null as null or, under a composite coder, as the byte zero |
| `WireFormat.KeyWritten` | flaredb/src/coders/mod.rs:228-237 | a key of a primitive coder, however nullable, is written as a record, any other as its own bytes |
| `WireFormat.BoolBytes` | flaredb/src/coders/primitives.rs:124-133 | one byte, zero or one; any byte but zero reads as true |
| `WireFormat.NullableBytes` | flaredb/src/coders/primitives.rs:309-335 | zero for null, one before a value, an error otherwise |
| `WireFormat.StringBytes` | flaredb/src/coders/primitives.rs:25-72 | strings, byte strings, pickled and prefixed values are a varint length and their bytes; opaque Java bytes stand alone; void is nothing |
| `WireFormat.NumberBytes` | flaredb/src/coders/primitives.rs:77-146 | integers are varints of their two's complement over 64 or 32 bits, doubles eight bytes, most significant first |
| `WireFormat.DelimitsIffNoOpaqueLeaf` | flaredb/src/coders/primitives.rs:57-72 | a coder delimits itself if and only if no leaf of it is opaque Java bytes |
| `WireFormat.InterruptibleIffLeaves` | flaredb/src/coders/primitives.rs:77-155 | cuts are never errors if and only if every leaf is an integer, a flag or void |
| `CoderLocality.DecodeSuffix` | flaredb/src/coders/mod.rs:390-438 | on any bytes a decoder leaves a suffix of its input |
| `CoderLocality.DecodeLocal` | flaredb/src/coders/mod.rs:390-438 | without opaque leaves the result depends on nothing beyond the consumed bytes, for every accepted input |
| `CoderLocality.TruncationNeverDecodes` | flaredb/src/coders/mod.rs:390-438 | no proper prefix of a consumed value decodes |
| `Truncation.CutRecord` | flaredb/src/coders/mod.rs:390-438 | any value of any self-delimiting coder, cut anywhere, faults as the offset says: an error from the end of a length varint to the end of its payload and anywhere in a double, a panic elsewhere |
| `Truncation.CutDelimited` | flaredb/src/coders/primitives.rs:1133-1150 | a cut length-prefixed value panics inside the length and errs after it, for every accepted wire form |
| `Truncation.InterruptibleNeverErrs` | flaredb/src/coders/mod.rs:390-438 | without length-prefixed or double leaves no cut at any offset is an error |
| `CoderIo.PutRecord` | flaredb/src/coders/mod.rs:257-303 | the encoder appends exactly the encoding, or panics where none exists |
| `CoderIo.PutIterable` | flaredb/src/coders/primitives.rs:172-180 | the list loop appends the count and every element |
| `CoderIo.PutTuple` | flaredb/src/coders/primitives.rs:233-248 | the tuple loop appends every component, and rejects a wrong arity |
| `CoderIo.PutKey` | flaredb/src/coders/mod.rs:228-237 | primitive keys are encoded, composite keys copied |
| `CoderIo.GetRecord` | flaredb/src/coders/mod.rs:390-438 | the decoder returns, consumes and faults as the function does |
| `CoderIo.GetIterable` | flaredb/src/coders/primitives.rs:182-213 | the counted and the chunked loop, including the panic on other negative counts |
| `CoderIo.GetKey` | flaredb/src/coders/mod.rs:216-226 | a composite key is decoded and re-encoded |
| `CoderIo.GetElement` | flaredb/src/coders/mod.rs:361-388 | the element decoder returns, consumes and faults as the function does |
| `WindowKeys.BinaryKeyRoundTrip` | flaredb/src/coders/primitives.rs:479-547 | every window parses back from its binary key |
| `WindowKeys.BinaryKeyBijection` | flaredb/src/coders/primitives.rs:479-547 | a key parses to a window if and only if it is the key printed for that window |
| `WindowKeys.BinaryKeyOrder` | flaredb/src/coders/primitives.rs:479-547 | byte order is Global, Interval by (start, end) over all i64, Opaque by id length, id and bytes, in both directions |
| `WindowKeys.BinaryKeyBytes` | flaredb/src/coders/primitives.rs:479-506 | the tag, the shifted bounds or the counted id and bytes; only an id of 2^32 bytes or more has no key |
| `WindowKeys.CanonicalKeyRoundTrip` | flaredb/src/coders/primitives.rs:437-471 | every window parses back from its string key, with negative bounds, empty bytes or colons in its coder id |
| `WindowKeys.KeysIdentifyAlike` | flaredb/src/coders/primitives.rs:437-547 | string keys are equal if and only if binary keys are, if and only if the windows are |
| `WindowKeys.CanonicalKeyText` | flaredb/src/coders/primitives.rs:437-448 | the printed text of every kind of window |
| `WindowKeys.AcceptedIntervalKey` | flaredb/src/coders/primitives.rs:454-471 | an interval is parsed exactly from its prefix and two numerals in range, with or without a sign, parted by the first colon |
| `WindowKeys.AcceptedOpaqueKey` | flaredb/src/coders/primitives.rs:454-471 | an opaque window is parsed exactly from its prefix, the id up to the last colon, and hex pairs in either case |
| `WindowKeys.AcceptedGlobalKey` | flaredb/src/coders/primitives.rs:454-457 | the global window is parsed from its word alone |
| `WindowKeys.HexValueReads` | flaredb/src/coders/primitives.rs:559-570 | a byte is read as a half-byte exactly when it is that digit in either case |
| `WindowKeys.HexText` | flaredb/src/coders/primitives.rs:549-557 | two lower-case digits per byte, the high half first |
| `WindowKeys.HexEncode` | flaredb/src/coders/primitives.rs:549-557 | the loop prints two digits per byte |
| `WindowKeys.HexDecode` | flaredb/src/coders/primitives.rs:559-570 | the loop parses what was printed and rejects odd lengths and other characters |
| `Panes.RoundTrip` | flaredb/src/coders/primitives.rs:1025-1087 | every pane round-trips before any suffix |
| `Panes.Shortest` | flaredb/src/coders/primitives.rs:1025-1087 | no byte string that decodes to a pane is shorter than its encoding |
| `Panes.OneByteIff` | flaredb/src/coders/primitives.rs:1036-1056 | a pane takes one byte exactly when its index is zero and the other is -1 for an early pane and zero for others |
| `Panes.OneIndexIff` | flaredb/src/coders/primitives.rs:1036-1056 | it carries its index alone exactly when that is not zero and implies the other |
| `Panes.FlagBits` | flaredb/src/coders/primitives.rs:1025-1033 | the low four bits of the first byte |
| `Panes.LoneByteReads` | flaredb/src/coders/primitives.rs:1059-1087 | what a single byte is read as, an early pane with -1 |
| `Panes.PutPane` | flaredb/src/coders/primitives.rs:1025-1057 | the encoder picks the form the pane allows |
| `Panes.GetPane` | flaredb/src/coders/primitives.rs:1059-1087 | the decoder returns, consumes and faults as the function does |
| `WindowedValues.IntervalRoundTrip` | flaredb/src/coders/primitives.rs:712-736 | every interval round-trips, even when its span overflows 64 bits |
| `WindowedValues.WindowsRoundTrip` | flaredb/src/coders/primitives.rs:963-1023 | window lists of every window coder round-trip before any suffix |
| `WindowedValues.FitsIffEncodes` | flaredb/src/coders/primitives.rs:712-736 | which windows a window coder writes; any other is a panic |
| `WindowedValues.ChunkedLikeCounted` | flaredb/src/coders/primitives.rs:971-996 | chunked window lists, under any negative count and any chunking, decode like counted ones |
| `WindowedValues.ValueRoundTrip` | flaredb/src/coders/primitives.rs:803-827 | a windowed value round-trips, its element up to normal form, the rest exactly |
| `WindowedValues.StreamRoundTrip` | flaredb/src/coders/primitives.rs:803-827 | any concatenation of windowed values decodes to that sequence, each with exactly its own bytes |
| `WindowedValues.FramesAreTheWire` | flaredb/src/engine/runtime.rs:283-318 | on any wire that decodes, the frames concatenate back to it, zero-byte elements included |
| `WindowedValues.ValueLocal` | flaredb/src/engine/runtime.rs:283-318 | a frame means the same wherever it is forwarded |
| `Reassembly.CutValue` | flaredb/src/coders/primitives.rs:815-827 | a windowed value cut anywhere faults as the offset says; its header never errs |
| `Reassembly.ReceivesUnlessACutBreaks` | flaredb/src/engine/runtime.rs:268-388 | for every stream of self-delimiting elements and every segmentation the loop returns what the stream decodes to if no message but the last ends at a breaking offset, and fails the bundle otherwise |
| `Reassembly.InterruptibleAlwaysReceived` | flaredb/src/engine/runtime.rs:282-372 | hence elements without length-prefixed or double leaves survive every segmentation |
| `Reassembly.ReceivedIffNoCutInPayload` | flaredb/src/engine/runtime.rs:282-372 | any number of string, byte-string or pickled elements in any messages arrive if and only if no message but the last ends at the start of or inside a payload, told from the values sent |
| `Reassembly.SplitPayloadFailsBundle` | flaredb/src/engine/runtime.rs:282-372 | a decodable stream that the loop fails: a byte string whose last byte comes in its own message |
| `Reassembly.DoubleCutAtItsStart` | flaredb/src/coders/primitives.rs:138-155 | a key-value pair cut between an integer key and its double is an error, not an under-run |
| `Reassembly.OpaqueElementTruncated` | flaredb/src/coders/primitives.rs:64-72 | self-delimitation is needed: opaque Java bytes in two messages do not arrive as sent |
| `TimerCodec.TimerRoundTrip` | flaredb/src/coders/primitives.rs:865-919 | a timer with a canonical key decodes to its meaning: a cleared one has zero times and no firing pane |
| `TimerCodec.TimersRoundTrip` | flaredb/src/engine/runtime.rs:851-890 | any stream of timers decodes back with every byte consumed |
| `TimerCodec.DecodedTimerIsStable` | flaredb/src/coders/primitives.rs:865-906 | whatever decodes is its own meaning and carries a canonical key |
| `WindowedIo.PutWindows` | flaredb/src/coders/primitives.rs:963-969 | the loop appends the count and every window |
| `WindowedIo.GetWindows` | flaredb/src/coders/primitives.rs:971-1023 | counted and chunked window loops |
| `WindowedIo.PutValue` | flaredb/src/coders/primitives.rs:804-813 | header then element |
| `WindowedIo.GetValue` | flaredb/src/coders/primitives.rs:815-827 | returns, consumes and faults as the function does |
| `WindowedIo.DrainBuffer` | flaredb/src/engine/runtime.rs:282-372 | decodes through a fresh cursor until the buffer is empty or a fault, which consumes nothing |
| `WindowedIo.ReceiveMessages` | flaredb/src/engine/runtime.rs:268-388 | the loop over data messages, with its three ways to fail the bundle |
| `WindowedIo.PutTimer` | flaredb/src/coders/primitives.rs:908-919 | appends the timer's encoding |
| `WindowedIo.GetTimer` | flaredb/src/coders/primitives.rs:866-906 | returns, consumes and faults as the function does |
| `CoderGraph.FromUrnResolves` | flaredb/src/coders/mod.rs:68-172 | on a map acyclic where resolution recurses, the recursion returns a tree if and only if the id resolves to it |
| `CoderGraph.ResolvesOnce` | flaredb/src/coders/mod.rs:68-172 | an id resolves to at most one tree |
| `WireFormat.ResolvedLeafWrites` | flaredb/src/coders/mod.rs:87-101 | what an id with each leaf URN, and each Java id, writes |
| `WireFormat.ResolvedLeafIs` | flaredb/src/coders/mod.rs:87-101 | each leaf URN resolves to its coder and no other does |
| `WireFormat.ResolvedCompositeIs` | flaredb/src/coders/mod.rs:102-169 | each composite URN resolves to its kind, made of as many component trees as it demands |
| `CoderGraph.CoderMap.LengthPrefixPickledLeaves` | flaredb/src/coders/mod.rs:464-507 | in whatever order it visits leaves and entries, the in-place rewrite gives one and the same map |
| `CoderGraph.OneWrapperPerLeaf` | flaredb/src/coders/mod.rs:479-489 | exactly one entry is added per pickled leaf whose wrapper name is absent |
| `CoderGraph.WrapperKeepsLeaf` | flaredb/src/coders/mod.rs:479-489 | a new wrapper is a length prefix whose one component is the leaf, which still resolves to its own coder |
| `CoderGraph.ResolutionSurvivesIff` | flaredb/src/coders/mod.rs:464-507 | every id that resolved still resolves after the rewrite if and only if, reading each use of a leaf with a taken wrapper name as a use of that name, no coder that resolved comes to use one that did not, or itself; for every map in which no component is an unbound wrapper name, so for every closed one |
| `CoderGraph.AcyclicAfterIff` | flaredb/src/coders/mod.rs:464-507 | the rewritten map is acyclic where resolution recurses if and only if the original is, so read |
| `CoderGraph.FreeNamesStayAcyclic` | flaredb/src/coders/mod.rs:464-507 | hence a closed acyclic map stays acyclic when wrapper names are free |
| `CoderGraph.RewriteMakesACycle` | flaredb/src/coders/mod.rs:479-507 | a closed acyclic map whose rewrite is cyclic, with an id that resolved before and resolves to nothing after |
| `CoderGraph.IdempotentIffSettled` | flaredb/src/coders/mod.rs:451-507 | a second rewrite changes nothing if and only if no wrapper name in use is itself a leaf |
| `CoderGraph.RewriteNotIdempotent` | flaredb/src/coders/mod.rs:464-507 | a map on which it does change something |
| `CoderGraph.RewriteKeepsMeaning` | flaredb/src/coders/mod.rs:464-507 | every id resolves to its old tree with each pickled leaf length-prefixed |
| `CoderGraph.NoCollisionExact` | flaredb/src/coders/mod.rs:464-507 | every id keeps its meaning if and only if every wrapper name was free or already a length prefix |
| `CoderGraph.RewriteAddsNoMeaning` | flaredb/src/coders/mod.rs:464-507 | and to no other tree |
| `CoderGraph.BoundaryMeaning` | flaredb/src/coders/mod.rs:509-520 | the boundary coder of an id is its old tree with no pickled leaf left, unless the id is no leaf and another coder has its wrapper name: then it is that coder |
| `CoderGraph.BoundaryPicksUnrelated` | flaredb/src/coders/mod.rs:513-520 | a map without pickled leaves on which the boundary coder of a nullable is a varint coder |
| `CoderWrap.WrapEncodes` | flaredb/src/coders/primitives.rs:267-352 | length-prefixing pickled leaves changes no byte written for any record |
| `CoderWrap.WrapDecodes` | flaredb/src/coders/primitives.rs:267-352 | nor anything read from any bytes |
| `CoderWrap.RewriteKeepsBytes` | flaredb/src/coders/mod.rs:464-520 | the coders resolved before and after the rewrite write and read the same bytes |
| `Schemas.SortByPosition` | flaredb/src/coders/schema.rs:128-137 | the sort returns a permutation of the field indices, ordered by position with ties in field order |
| `Schemas.OrderUnique` | flaredb/src/coders/schema.rs:128-140 | there is only one such order |
| `Schemas.OrderInverts` | flaredb/src/coders/schema.rs:128-140 | when positions are a permutation the order is its inverse |
| `Schemas.FromProtoSpec` | flaredb/src/coders/schema.rs:108-228 | resolution succeeds if and only if every nested type is present and specified, and mirrors the schema at every depth, atoms by their proto numbers, each row in encoding order |
| `Schemas.BuildSchema` | flaredb/src/coders/schema.rs:108-147 | the loop over fields and the sort give the resolved schema, or the error; nested types are resolved by the pure recursion |
| `Liveness.RunKeepsInv` | flaredb/src/engine/guard.rs:48-106 | what every timed run of touches, polls and finishes keeps |
| `Liveness.ErrorOnlyWhenIdle` | flaredb/src/engine/guard.rs:57-106 | an idle error means at least `max_idle` since the creation of the clock and every earlier touch |
| `Liveness.HungWorkerIsCaught` | flaredb/src/engine/guard.rs:63-106 | a started, unfinished guard has failed once `max_idle` and one late poll have passed since the last touch |
| `Liveness.ErrorIsPrompt` | flaredb/src/engine/guard.rs:63-106 | the error comes at the first poll or within `max_idle` plus one late poll of some touch before it |
| `Liveness.WaitingMeansRecent` | flaredb/src/engine/guard.rs:63-73 | while the guard sleeps the last touch is that recent |
| `Liveness.IdleIs` | flaredb/src/engine/guard.rs:66-67 | the idle time, zero when the clock seems to have gone backwards |
| `Liveness.SleepIs` | flaredb/src/engine/guard.rs:70-71 | a sleep lasts 100 ms and at most the jitter more, whatever activity happens in it |
| `Liveness.WaitIdle` | flaredb/src/engine/guard.rs:63-73 | the polling loop is a run of the guard, whatever time and activity pass during its sleeps; it fires with an idle clock or is asleep |
| `Liveness.IdleGuard` | flaredb/src/engine/guard.rs:94-106 | in either order of the race: an error means `max_idle` without any activity; a ready bundle is failed exactly when the clock is polled first and idle; and unless the bundle was ready at once or failed at the first poll, activity was within `max_idle` plus one late poll |
| `Liveness.ReadyBundleMayFail` | flaredb/src/engine/guard.rs:94-106 | a bundle ready at once on a stale clock can be returned and can be failed |
| `Liveness.Clock.Touch` | flaredb/src/engine/guard.rs:57-59 | the step of every guard over the clock: the activity is recorded and the idle time is zero |
| `DynamicSplit.StepConserves` | example/python/dynamic_split.py:84-126 | no claim, split, start or finish creates, loses or duplicates a block |
| `DynamicSplit.ReachablePartition` | beam-model-rs/src/v1/org.apache.beam.model.fn_execution.v1.rs:647-661 | in every interleaving claims, live work and residuals partition the blocks |
| `DynamicSplit.NeverClaimedTwice` | example/python/dynamic_split.py:97-119 | no block is claimed twice and none outside the job |
| `DynamicSplit.VerifiesIffEveryBlockOnce` | example/python/dynamic_split.py:141-152 | `verify_claims` accepts exactly the logs with every block once |
| `DynamicSplit.VerifiesIffNoWorkLeft` | example/python/dynamic_split.py:141-152 | in every reachable state it passes if and only if no block is left to claim |
| `DynamicSplit.EveryRunCanComplete` | example/python/dynamic_split.py:84-152 | however the job was split it can be finished, and `verify_claims` accepts every way to finish it |
| `DynamicSplit.Process` | example/python/dynamic_split.py:84-126 | under any number of split requests before each claim the loop claims a prefix in order, hands back the rest exactly once, and is a run of the protocol |
| `BufferAndFire.StepKeepsInv` | example/python/timers.py:69-114 | each callback keeps conservation and both timers in step with the state |
| `BufferAndFire.ElementsConserved` | example/python/timers.py:69-100 | in every run the elements of a key are its flushed counts plus its buffer |
| `BufferAndFire.FiresExactlyTwice` | example/python/timers.py:101-114 | an event timer never fires a third time, and has fired twice for every seen key once none is set |
| `BufferAndFire.EveryRunCanDrain` | example/python/timers.py:69-114 | no timer is stranded: every run can be drained, and every way to drain it leaves two firings per seen key and every element flushed once |
| `BufferAndFire.VerifiesIffAccounted` | example/python/timers.py:171-207 | on any files, `verify` passes if and only if no key is empty and every key is flushed once with its count and fired twice if it was seen, neither if not |
| `BufferAndFire.VerifiesIffQuiet` | example/python/timers.py:171-207 | with all timers delivered `verify` passes if and only if no key is empty and none receives an element after its flush |
| `BufferAndFire.LateElementFailsVerify` | example/python/timers.py:138-155 | a drained run that `verify` rejects |
| `BufferAndFire.BufferAndFireOnTimer.Process` | example/python/timers.py:69-88 | keeps the invariant of every key; the element joins those of its key not yet flushed, both its timers are set, other keys are unchanged |
| `BufferAndFire.BufferAndFireOnTimer.OnFlush` | example/python/timers.py:90-99 | keeps the invariant; writes a count that is not zero, after which the flushed counts of the key are all its elements; other keys are unchanged |
| `BufferAndFire.BufferAndFireOnTimer.OnEventFlush` | example/python/timers.py:101-114 | keeps the invariant; the first firing of a key re-arms, the second does not, there is no third; other keys are unchanged |
| `BufferAndFire.CountKeys` | example/python/timers.py:125-168 | the counting loops |
| `BufferAndFire.ReadFlushResults` | example/python/timers.py:138-155 | the loop that rejects a repeated key and passes over an empty one |

## Left out

- Varint.GetVarint: an eleventh byte is a panic, while the code would go on shifting; how it then behaves depends on the build.
- Liveness.WaitIdle: what happens during a sleep is given as a list of events, and a wake-up may be late by a fixed jitter; the bundle's own future is not modelled beyond when it ends.
- Reassembly.ReceivesUnlessACutBreaks: element coders with an opaque Java leaf are excluded, because for them the code promises nothing across messages (`OpaqueElementTruncated`).
- Liveness.RunKeepsInv: a touch reads and stores the clock in one step, and the clock does not go backwards.
- DynamicSplit.Process: how the runner turns a fraction into an offset is Beam's.
- BufferAndFire.VerifiesIffQuiet: starts from parsed keys; CSV lines, log lines and files are not modelled.
- CoderGraph.FromUrnResolves: the component ids always come from the map; callers that pass their own are not modelled.
- WindowedIo.ReceiveMessages: batching, the table writer and the second decode of structured payloads are not modelled; every stream ends with its last data message.
- TimerCodec.TimersRoundTrip: what the timer service does with decoded timers is not modelled.
- The row coder: schemas are resolved, but rows are not encoded.
- Choosing a window coder from a coder id, and the timestamps windows close at.
- Fusion, scheduling, triggers, watermarks, side inputs and the element store: separate parts of the runner around this core.
- The command line, the SQL front end, the key-value store wrapper and the gRPC plumbing.
- Text of error messages and log output.
