# The HTTP/2 core, verified

This project models the receive and send core of the server's HTTP/2 support
together with its HPACK codec, and proves that the layers do what they promise
to each other. It is written for Dafny 4.11; `dafny verify dfyconfig.toml`
checks all of it.

Five layers stack, and each is proved against the one below:

1. **Cyclic table** (`CyclicTable`). The growing and shrinking ring buffer
   behind the HPACK dynamic table, as a class over an array. Every run of calls
   answers like a plain sequence, every assertion of the source holds, and the
   element copies of all growing and shrinking together stay within two per call.
2. **HPACK** (`PrefixInteger`, `Bits`, `Huffman`, `HpackTable`, `HpackLookup`,
   `HpackCodec`, `Hpack`, `HpackRoundTrip`, `HpackWire`). Integers, Huffman strings, the
   byte-accounted table, the table search, the five representations, and the
   encoder and decoder loops that update their tables in place. The main result
   is a lockstep: over a whole connection with its own compress options and size
   changes, agreed or announced on the wire, every header list arrives as sent, with equal tables at both ends,
   *if and only if* the lists meet a condition on the sender's side.
3. **Buffered reader** (`BufferedReader`). A reader over a descriptor that hands
   out its bytes in arbitrary pieces; every run of calls answers as the
   unbroken stream would.
4. **Frames and streams** (`Frames`, `FrameBytes`, `FrameWriter`, `FrameReader`,
   `Streams`, `StreamSteps`, `StreamRuns`). Parsing and writing of frames, what the bytes of every kind
   of frame mean, the stream state machine as a class, and what holds over every run of frames: at most one report per
   stream, nothing reverts, streams do not interfere, and a reported request
   holds exactly what arrived for it unless its stream was closed in between.
5. **Messages** (`Fragmentation`, `RequestHead`, `Server`). Fragmenting and
   collecting messages, the shape of a request head, and the loop that serves
   requests. `Server.DeliverRequest` runs the whole way: compress, fragment,
   write bytes, read them back in any pieces, process the frames, decompress and
   parse the head; the request that comes out is the one that went in.

The modules that update state (`CyclicTable.Table`, `HpackTable.TableState`,
`BufferedReader.Reader`, `Streams.Connection`, and the buffer-filling encoders)
keep the source's loops and assignments; each is tied to a plain function of its
inputs, and the properties are proved about those functions.

Some promises are false of the code. They are kept as the code has them, with the
exact condition under which they hold, and an input for which they fail:

| promise | holds exactly when | an input for which it fails |
|---|---|---|
| a compressed header list decompresses to itself | `HpackRoundTrip.BlockSurvives` | `HpackRoundTrip.EmptyValueIsRefused` (src/http/hpack.c:341-348), `HpackRoundTrip.LongerValueIsCutOff` (tools/helper/src/hpack.ts:1899) |
| a prefix integer is read back | `PrefixInteger.Representable` | `PrefixInteger.LargestInteger` (src/http/hpack.c:61-62) |
| a Huffman-coded string is read back | `Huffman.FillsOutput` is false | `Huffman.EightShortSymbolsAreRefused` (src/http/hpack_huffman.c:84) |
| a delimiter read finds the first delimiter | `BufferedReader.RepeatsOneByte` | `BufferedReader.BrokenStartIsMissed` (src/utils/buffered_reader.c:203-207) |
| a frame takes the bytes its header announces | it is not a PUSH_PROMISE (`Frames.FramingIsExact`) | `Frames.PushPromiseLeavesBytes` (src/http/v2.c:1310-1327) |
| a body can be sent within the peer's limits | not 2^24 for both (`Fragmentation.BodyCanBeSentIff`) | `Fragmentation.LargestFrameCannotBeSent` (src/http/v2.c:1088) |
| a closed stream stays closed over a run | none of its frames is RST_STREAM (`StreamRuns.ClosedIsAbsorbingIff`, `StreamRuns.ClosedOnConnectionIff`) | any RST_STREAM: `StreamRuns.FirstResetReopens` (src/http/v2.c:2437-2441) |
| a reported request holds exactly what arrived for it | none of its frames left the stream closed (`StreamRuns.ReportedRequestIsWholeIff`) | `StreamRuns.ResetLosesBlocks` (src/http/v2.c:2437-2441); a single reset is harmless: `StreamRuns.SingleResetKeepsBlocks` |
| a message is reported on its last frame | `Fragmentation.MessageIsDeliveredIff`; behind PRIORITY `Fragmentation.PrioritizedMessageIsDeliveredIff` | END_STREAM on HEADERS with a body behind it, or a body on a stream that PRIORITY opened |
| every stream is at most the last one seen | stream 1 is absent or the last one seen is at least 1 (`StreamRuns.BoundedIff`); behind an upgrade: a stream was seen before it or is touched by a frame since (`StreamRuns.UpgradedRunIsBoundedIff`) | `StreamRuns.UpgradeSkipsLastStreamId` (src/http/v2.c:3433) |

The generated tables are parameters: the static table, the list of common keys,
the Huffman tree and its encode map. The Huffman results assume what appendix B
of RFC 7541 gives: codes of 5 to 30 bits, a tree that leads along each code to
its symbol, and no leaf within seven one-bits.

## Model

| member | source | states |
|---|---|---|
| `CyclicTable.Table.At` | src/http/dynamic_hpack_table.c:12-23 | element i of the sequence, or none beyond the end |
| `CyclicTable.Table.Size` | src/http/dynamic_hpack_table.c:25-27 | the length of the sequence |
| `CyclicTable.Table.Free` | src/http/dynamic_hpack_table.c:89-112 | every used slot is nulled on the way round the ring, and the empty table remains |
| `CyclicTable.Table.InsertAtStart` | src/http/dynamic_hpack_table.c:268-345 | prepends; capacity doubles from 32 and only when full; amortised cost two |
| `CyclicTable.Table.Grow` | src/http/dynamic_hpack_table.c:271-331 | relocating the wrapped prefix keeps the sequence |
| `CyclicTable.Table.PushFront` | src/http/dynamic_hpack_table.c:333-345 | the slot before the start, round the end, is null, and taking it prepends |
| `CyclicTable.Table.PopAtEnd` | src/http/dynamic_hpack_table.c:123-266 | removes and returns the last element, fails exactly on the empty table; capacity halves exactly below a quarter and not below 32; amortised cost one |
| `CyclicTable.Table.Shrink` | src/http/dynamic_hpack_table.c:149-261 | halving the buffer keeps the sequence, with at most one copy per element |
| `CyclicTable.Table.MoveDown` | src/http/dynamic_hpack_table.c:162-193 | the copy from the last element back overwrites only null slots and keeps the sequence |
| `CyclicTable.Table.MoveUp` | src/http/dynamic_hpack_table.c:197-231 | the copy from the first element on overwrites only null slots and keeps the sequence |
| `CyclicTable.Run` | src/http/dynamic_hpack_table.c:12-345 | every run of calls on an empty table answers as a plain sequence would, with at most two relocations per call |
| `HpackTable.TotalSizePrefix` | src/http/hpack.c:394-401 | every entry left out of a prefix saves at least 32 bytes |
| `HpackTable.TotalSizeCons` | src/http/hpack.c:394-401 | the byte count is the sum of the entry sizes, from either end |
| `HpackTable.TotalSizeIsFootprint` | src/http/hpack.c:394-401 | section 4.1 of RFC 7541: the byte count is every octet of the names and values, and 32 for each entry |
| `HpackTable.FittingIsLongestPrefix` | src/http/hpack.c:419-434 | eviction from the end leaves a prefix that fits, and no longer one would |
| `HpackTable.InsertKeepsLongestPrefix` | src/http/hpack.c:403-448 | section 4.4 of RFC 7541: the newest entry and the longest prefix that fits beside it; an oversized entry empties the table; the maximum is kept |
| `HpackTable.ResizeKeepsLongestPrefix` | src/http/hpack.c:924-966 | section 4.3 of RFC 7541: a new maximum keeps the longest prefix that fits it |
| `HpackTable.TableState.EvictFor` | src/http/hpack.c:419-434 | pops exactly what must go; the break for a failed pop is unreachable |
| `HpackTable.TableState.Insert` | src/http/hpack.c:403-448 | the cyclic table and its byte count do what the abstract insertion does; the buffer stays within its bound |
| `HpackTable.TableState.Resize` | src/http/hpack.c:924-966 | the cyclic table and its byte count do what the abstract change of the maximum does |
| `HpackTable.RunChanges` | src/http/hpack.c:403-448 | over every run of insertions and size changes up to a limit M: accounting is exact, at most M/32 entries, buffer at most max(32, M/16) |
| `PrefixInteger.FirstByte` | src/http/hpack.c:75-121 | the first byte keeps its high bits and carries the value or a full prefix |
| `PrefixInteger.DigitsRoundTrip` | src/http/hpack.c:43-69 | the continuation loop reads the digits of any value back up to 2^31, and shifts out of range from there on |
| `PrefixInteger.RoundTrip` | src/http/hpack.c:27-121 | section 5.1 of RFC 7541: decoding an encoded integer gives the value and the bytes written, for exactly the values below 2^31 plus the mask |
| `PrefixInteger.LargestInteger` | src/http/hpack.c:61-62 | the boundary of that range for a 7-bit prefix |
| `PrefixInteger.Examples` | src/http/hpack.c:75-121 | the bytes of the examples in appendix C.1 of RFC 7541 |
| `PrefixInteger.DigitsLength` | src/http/hpack.c:95-118 | values of 7k bits take at most k digits |
| `PrefixInteger.ShortEnough` | src/http/hpack.c:75-121 | values below 2^63 pass the size check of the field encoders |
| `PrefixInteger.DecodeAt` | src/http/hpack.c:27-72 | the loop with its position computes the meaning of the bytes, errors included |
| `PrefixInteger.EncodeAt` | src/http/hpack.c:75-121 | the buffer holds exactly the encoding behind what it held; the failure return is unreachable |
| `Bits.UnpackPack` | src/http/hpack_huffman.c:63-106 | bits packed into bytes are read back in the same order |
| `Bits.BitsOfAt` | src/http/hpack_huffman.c:50-69 | bit positions count from the most significant bit |
| `Bits.PackSnoc` | src/http/hpack_huffman.c:230-262 | setting the next bit of the last byte appends one bit |
| `Huffman.PrefixFree` | src/http/hpack_huffman.c:63-106 | the tree makes the code prefix-free |
| `Huffman.DecodeCode` | src/http/hpack_huffman.c:63-106 | one code is consumed exactly and yields its symbol, unless the output would become full |
| `Huffman.DecodeStringThen` | src/http/hpack_huffman.c:63-145 | behind the codes of a string, bits that complete no symbol are dropped unchecked, bits that no code starts with are refused |
| `Huffman.DecodeString` | src/http/hpack_huffman.c:27-153 | a coded string with up to seven padding bits decodes to itself, or overflows the output |
| `Huffman.RoundTrip` | src/http/hpack_huffman.c:27-276 | decode of encode is the string, except for exactly those that are empty or fill the output, which are errors |
| `Huffman.EightShortSymbolsAreRefused` | src/http/hpack_huffman.c:84 | the shortest lost string: eight symbols of five bits |
| `Huffman.DecodeBytes` | src/http/hpack_huffman.c:27-153 | the loop over bytes and bit positions computes the decoding; the check for leftover bits always passes |
| `Huffman.EncodedSize` | src/http/hpack_huffman.c:190-205 | the size computed ahead is the size of the encoding |
| `Huffman.EncodeInto` | src/http/hpack_huffman.c:216-276 | writes exactly the encoding with its padding, or reports that it does not fit, and touches nothing else |
| `HpackLookup.StaticIsSound` | tools/helper/src/hpack.ts:1868-1930 | a result of the generated lookup names an entry with that key; a full match has that value unless the field loses it |
| `HpackLookup.FindIsSound` | src/http/hpack.c:2056-2138 | a search result names an entry of the index space with that key; a full match has that value, except for exactly the fields that lose theirs |
| `HpackLookup.StaticIsComplete` | tools/helper/src/hpack.ts:1868-1930 | the generated lookup misses no entry and prefers the smallest index |
| `HpackLookup.FindIsComplete` | src/http/hpack.c:2056-2138 | nothing is found exactly when no searched entry has the key, a whole match exactly when one is the field or its value is lost, and always the smallest index that will do |
| `HpackLookup.FindInTables` | src/http/hpack.c:2056-2138 | the loop finds the best result: first full match, then static key, then first dynamic key |
| `Hpack.EntryAt` | src/http/hpack.c:139-176 | an index selects a static entry, a dynamic one behind them, or nothing |
| `Hpack.ParseStringAt` | src/http/hpack.c:320-392 | the string literal at a position, with the source's order of checks |
| `Hpack.ParseLiteralAt` | src/http/hpack.c:450-776 | a literal field at a position, with its name from either place |
| `Hpack.ParseIndexedAt` | src/http/hpack.c:178-316 | an indexed field at a position, with the fate of entries without a value |
| `Hpack.StepAt` | src/http/hpack.c:778-884 | one representation advances the position, the list and the table; an error leaves the table alone |
| `Hpack.Decompress` | src/http/hpack.c:778-884 | the decoder loop over a mutable table computes the meaning of the block and the table it leaves |
| `Hpack.PutStringAt` | src/http/hpack.c:1132-1166 | a string literal lands in the buffer and nothing else changes |
| `Hpack.EncodeLiteral` | src/http/hpack.c:1004-1973 | the buffer of each literal encoder is big enough and is cut to exactly the representation; no size check fires |
| `Hpack.EncodeIndexed` | src/http/hpack.c:2193-2245 | an index found in the tables can always be encoded |
| `Hpack.EncodeField` | src/http/hpack.c:2252-2276 | the representation chosen by the search and the options is written, and the table follows it |
| `Hpack.Compress` | src/http/hpack.c:2278-2338 | the encoder loop over a mutable table writes the block of the whole list and never gives up |
| `HpackRoundTrip.StringRoundTrip` | src/http/hpack.c:320-392 | section 5.2 of RFC 7541: a string literal is read back, with the bytes behind it, exactly when it survives and is not an empty one at the very end |
| `HpackRoundTrip.NameRoundTrip` | src/http/hpack.c:487-518 | the name of a literal is read back from the string or the table |
| `HpackRoundTrip.LiteralBytesRead` | src/http/hpack.c:450-776 | the layout of a literal field is read back under any of its first bytes, exactly when its parts survive |
| `HpackRoundTrip.LiteralRoundTrip` | src/http/hpack.c:450-776 | sections 6.2.1 to 6.2.3 of RFC 7541: a literal field is read back exactly when its parts survive |
| `HpackRoundTrip.IndexedRoundTrip` | src/http/hpack.c:178-316 | section 6.1 of RFC 7541: an index chosen by the encoder names the same field for the decoder, unless the field lost its value |
| `HpackRoundTrip.FieldRoundTrip` | src/http/hpack.c:2252-2276 | one field through both ends: it arrives and the decoder's table becomes the encoder's, exactly when its representation survives |
| `HpackRoundTrip.SurvivingIsEncoded` | src/http/hpack.c:2252-2276 | what survives is never refused by the encoder |
| `HpackRoundTrip.BlockRoundTrip` | src/http/hpack.c:2278-2318 | for every option, table and list: decompressing the compressed block gives the list if and only if it survives, and then with equal tables |
| `HpackRoundTrip.EmptyValueIsRefused` | src/http/hpack.c:341-348 | the list ("a", "") cannot be read back |
| `HpackRoundTrip.LongerValueIsCutOff` | tools/helper/src/hpack.ts:1897-1903 | a value that goes on behind the only static value of its key arrives as the static value |
| `HpackRoundTrip.SizeUpdateResizes` | src/http/hpack.c:555-579 | section 6.3 of RFC 7541: a size update in front of anything resizes the table and carries no field |
| `HpackRoundTrip.EventRoundTrip` | src/http/hpack.c:778-884 | a block, alone or behind a size update, arrives with equal tables exactly when it survives |
| `HpackRoundTrip.ConnectionRoundTrip` | src/http/hpack.c:2278-2338 | over a whole connection with size changes on both sides or announced on the wire, every block arrives as sent if and only if every list survives; then both tables are equal at the end |
| `HpackWire.FieldForm` | src/http/hpack.c:2140-2276 | which bytes the encoder writes for a field: an index for a whole match, else a literal that is indexed exactly under the option for its key, coded exactly when always asked for or shorter in all; and the table behind it |
| `HpackWire.LiteralFirstByte` | src/http/hpack.c:1004-1973 | indexed literals start with 01, the others with 0001 |
| `HpackWire.LiteralFormsRead` | src/http/hpack.c:450-884 | sections 6.2.1 to 6.2.3 of RFC 7541: all three literal forms carry their field, and only incremental indexing adds it |
| `HpackWire.IndexedRead` | src/http/hpack.c:139-316 | section 6.1 of RFC 7541: every index means its static or dynamic entry, and 0, an index beyond both and, in strict builds, an entry without a value are refused |
| `HpackWire.StepExtends` | src/http/hpack.c:778-884 | what has been read does not depend on what follows |
| `HpackWire.TruncatedIsRefused` | src/http/hpack.c:778-884 | a representation cut off anywhere is refused |
| `BufferedReader.ScanIsSound` | src/utils/buffered_reader.c:153-209 | a match is a match: the delimiter lies right before the position found |
| `BufferedReader.DelimitedBytesAreConsumed` | src/utils/buffered_reader.c:153-209 | the result with the delimiter behind it is exactly what left the stream |
| `BufferedReader.PlainTextIsFound` | src/utils/buffered_reader.c:153-209 | text without the first byte of the delimiter is the answer, and the rest stays |
| `BufferedReader.FirstOccurrenceIff` | src/utils/buffered_reader.c:203-207 | the matcher finds the first occurrence in every stream if and only if the delimiter repeats one byte |
| `BufferedReader.BrokenStartIsMissed` | src/utils/buffered_reader.c:203-207 | every other delimiter is missed behind a broken start of itself |
| `BufferedReader.Reader.IsSafeToRead` | src/utils/buffered_reader.c:49-60 | the cursor never passes the buffer |
| `BufferedReader.Reader.GetMoreDataPartially` | src/utils/buffered_reader.c:64-99 | one read moves a piece from the stream to the buffer, or ends the stream |
| `BufferedReader.Reader.GetMoreDataExact` | src/utils/buffered_reader.c:101-119 | the amount arrives exactly when the stream still has it |
| `BufferedReader.Reader.GetUntilDelimiter` | src/utils/buffered_reader.c:153-209 | the answer of the unbroken stream, however it was split |
| `BufferedReader.Reader.Search` | src/utils/buffered_reader.c:163-208 | byte by byte with refills, the cursor ends where the matcher does |
| `BufferedReader.Reader.GetUntilEnd` | src/utils/buffered_reader.c:223-287 | the answer of the unbroken stream: everything unread, or a failure |
| `BufferedReader.Reader.GetAmount` | src/utils/buffered_reader.c:289-337 | the answer of the unbroken stream: that many bytes, or its end |
| `BufferedReader.Reader.InvalidateOldData` | src/utils/buffered_reader.c:339-370 | the unread bytes stay the same |
| `BufferedReader.AnswersConserve` | src/utils/buffered_reader.c:153-337 | bytes handed out have left the stream from its front and nothing else does; a call that cannot be answered says how the stream ended |
| `BufferedReader.RunCalls` | src/utils/buffered_reader.c:64-370 | every run of calls answers as the unbroken stream would, for every split into pieces |
| `Frames.BigEndianRoundTrip` | src/http/v2.c:32-50 | fields of n bytes are read back |
| `Frames.RawHeaderRoundTrip` | src/http/v2.c:52-74 | section 4.1 of RFC 7540: a header survives writing and parsing exactly for lengths below 2^24 and identifiers below 2^31 |
| `FrameBytes.RawHeaderLayout` | src/http/v2.c:32-74 | section 4.1 of RFC 7540: the header byte by byte, the reserved bit ignored |
| `FrameBytes.FlagTests` | src/http/v2.c:86-91 | the tests on flags, bit by bit |
| `Frames.SettingsAreChecked` | src/http/v2.c:1020-1130 | no setting that a check refuses gets through the parser |
| `Frames.FramingIsExact` | src/http/v2.c:1709-1777 | a parsed frame took 9 bytes and its announced length, for every padding and priority; a PUSH_PROMISE three fewer |
| `Frames.PushPromiseLeavesBytes` | src/http/v2.c:1310-1327 | the smallest PUSH_PROMISE is accepted and leaves three of its bytes to the next frame |
| `Frames.ParsedIsWellFormed` | src/http/v2.c:524-1777 | frames of streams carry a stream, and settings are in range |
| `FrameBytes.FrameBytesRead` | src/http/v2.c:1709-1777 | a frame longer than the limit is refused, any other is what its payload means |
| `FrameBytes.DataRead` | src/http/v2.c:524-656 | section 6.1 of RFC 7540: exactly which DATA frames are accepted, and their content between pad length and padding |
| `FrameBytes.PaddedDataRead` | src/http/v2.c:524-656 | every padded DATA frame gives its content, or is refused for padding that is not zero or an empty content |
| `FrameBytes.HeadersRead` | src/http/v2.c:694-867 | section 6.2 of RFC 7540: exactly which HEADERS frames are accepted, with the fragment between pad length, priority and padding |
| `FrameBytes.PaddedHeadersRead` | src/http/v2.c:694-867 | every HEADERS frame with padding and priority gives its fragment and the priority written |
| `FrameBytes.PriorityRead` | src/http/v2.c:661-682 | section 6.3 of RFC 7540: the five bytes of a priority |
| `FrameBytes.FixedRead` | src/http/v2.c:877-1641 | sections 6.3, 6.4, 6.7 and 6.9 of RFC 7540: exactly which PRIORITY, RST_STREAM, PING and WINDOW_UPDATE frames are accepted, what they say, and the error of the others |
| `FrameBytes.GoawayRead` | src/http/v2.c:1482-1576 | section 6.8 of RFC 7540: exactly which GOAWAY frames are accepted and what they say |
| `FrameBytes.ContinuationRead` | src/http/v2.c:1643-1707 | section 6.10 of RFC 7540: exactly which CONTINUATION frames are accepted |
| `FrameBytes.PushPromiseRead` | src/http/v2.c:1224-1401 | exactly which PUSH_PROMISE frames are accepted, with fragment and padding read three bytes too far in front |
| `FrameBytes.UnknownKind` | src/http/v2.c:1709-1777 | a kind above 9 is an internal error |
| `FrameBytes.SettingsRead` | src/http/v2.c:1020-1211 | section 6.5 of RFC 7540: every list of settings is read back without the unknown ones, or refused with the error of its first bad entry |
| `FrameBytes.SettingsHeaderRead` | src/http/v2.c:1134-1211 | an acknowledgement is empty; other streams, flags and sizes are refused |
| `FrameWriter.RawRoundTrip` | src/http/v2.c:138-185 | the header written in front of a payload makes the reader parse that payload and nothing behind it |
| `FrameWriter.PayloadRoundTrip` | src/http/v2.c:191-488 | the flags and payload of each kind written mean that frame to its parser |
| `FrameWriter.WriteRoundTrip` | src/http/v2.c:138-488 | every frame this end writes is read back as itself; it is refused exactly when its payload does not fit 24 bits |
| `FrameReader.ReadPadLength` | src/http/v2.c:546-588 | the pad length from the reader, and what it leaves of the payload |
| `FrameReader.ReadPadding` | src/http/v2.c:619-645 | the padding from the reader, refused unless it is zero |
| `FrameReader.ReadData` | src/http/v2.c:524-656 | a DATA frame from the reader, with padding |
| `FrameReader.ReadHeaders` | src/http/v2.c:694-867 | a HEADERS frame from the reader, with padding and priority |
| `FrameReader.ReadPriority` | src/http/v2.c:877-937 | a PRIORITY frame from the reader |
| `FrameReader.ReadRstStream` | src/http/v2.c:947-1007 | a RST_STREAM frame from the reader |
| `FrameReader.ReadSettingsPayload` | src/http/v2.c:1020-1130 | the entries of a settings payload, unknown ones skipped, the first bad one refused |
| `FrameReader.ReadSettings` | src/http/v2.c:1134-1211 | a SETTINGS frame from the reader |
| `FrameReader.ReadPing` | src/http/v2.c:1403-1470 | a PING frame from the reader |
| `FrameReader.ReadGoaway` | src/http/v2.c:1482-1576 | a GOAWAY frame from the reader |
| `FrameReader.ReadWindowUpdate` | src/http/v2.c:1588-1641 | a WINDOW_UPDATE frame from the reader |
| `FrameReader.ReadContinuation` | src/http/v2.c:1643-1707 | a CONTINUATION frame from the reader |
| `FrameReader.ReadFrame` | src/http/v2.c:1709-1777 | the next frame is what the bytes of the stream say, however they arrive, and exactly its bytes leave the reader |
| `Streams.Connection.ApplySettingsFrame` | src/http/v2.c:1779-1817 | settings are applied in order, a table size to the decompressor's table |
| `Streams.Connection.AddBlockTo` | src/http/v2.c:2048-2065 | a header block is appended, and a complete stream reported |
| `Streams.Connection.CloseByIdentifier` | src/http/v2.c:2113-2133 | only that stream is closed, and its blocks are gone |
| `Streams.Connection.ProcessData` | src/http/v2.c:2145-2238 | a DATA frame on its stream; the branch for a missing stream is unreachable |
| `Streams.Connection.ProcessHeaders` | src/http/v2.c:2239-2370 | a HEADERS frame on its stream, new or idle |
| `Streams.Connection.ProcessRstStream` | src/http/v2.c:2400-2444 | a RST_STREAM frame on its stream; the branch for a missing stream is unreachable |
| `Streams.Connection.ProcessContinuation` | src/http/v2.c:2507-2599 | a CONTINUATION frame on its stream; the branch for a missing stream is unreachable |
| `Streams.Connection.ProcessForStream` | src/http/v2.c:2135-2620 | the effect of every kind of frame is on its own stream only |
| `Streams.Connection.ProcessFrame` | src/http/v2.c:2722-2740 | one frame changes the connection as the machine on values does |
| `Streams.StreamZeroStaysOut` | src/http/v2.c:1228-1235 | no frame puts stream 0 into the map |
| `StreamSteps.LastSettingCounts` | src/http/v2.c:1779-1817 | the last entry of each identifier sets its limit, and the limits without one stay |
| `StreamSteps.SettingsResizeTable` | src/http/v2.c:1786-1790 | the decompressor's table takes the last size, and keeps what fits the smallest one |
| `StreamSteps.RefusedIff` | src/http/v2.c:2135-2620 | exactly which frames a stream refuses, by its state and flags |
| `StreamSteps.PushPromiseIsRefused` | src/http/v2.c:2445-2498 | a PUSH_PROMISE is refused and leaves no stream |
| `StreamSteps.RefusalCloses` | src/http/v2.c:2113-2620 | a refused frame closes its stream and drops its blocks |
| `StreamSteps.FinishedIff` | src/http/v2.c:2135-2620 | an accepted frame reports a request exactly when it completes the headers and the end |
| `StreamSteps.AcceptedFrame` | src/http/v2.c:2135-2620 | section 5.1 of RFC 7540, as implemented: the state and the flags behind every accepted frame |
| `StreamSteps.AcceptedBlocks` | src/http/v2.c:2048-2084 | an accepted frame adds its own block and no other |
| `StreamSteps.PriorityIsTheLastOne` | src/http/v2.c:2284-2399 | the priority is that of the last frame that carried one to the stream |
| `StreamSteps.PriorityAndWindow` | src/http/v2.c:2372-2506 | PRIORITY changes nothing but the priority, or leaves an idle stream; WINDOW_UPDATE changes nothing |
| `StreamSteps.Defaults` | src/http/v2.c:94-134 | the values a connection starts with |
| `StreamSteps.RunLeaves` | src/http/v2.c:2622-2740 | what any run leaves of the limits, the table, the last stream identifier and the reason of closing |
| `StreamSteps.ConnectionVerdicts` | src/http/v2.c:2622-2708 | of the frames of the connection only GOAWAY closes it, and none touches a stream |
| `StreamSteps.UpgradedStream` | src/http/v2.c:3403-3439 | an upgrade is its settings and a stream 1 that refuses every further part of a request |
| `StreamRuns.ReportSpends` | src/http/v2.c:2135-2620 | a report is about the stream of its frame and spends it; a spent stream stays spent and is not reported |
| `StreamRuns.ReportedAtMostOnce` | src/http/v2.c:2135-2620 | over every run of frames from every state, a stream is reported at most once |
| `StreamRuns.UpgradedStreamIsNotReported` | src/http/v2.c:3423-3439 | after an upgrade no frame reports stream 1 again |
| `StreamRuns.OnwardStep` | src/http/v2.c:2048-2620 | one frame unsets no flag and returns no stream to Idle |
| `StreamRuns.NothingReverts` | src/http/v2.c:2048-2740 | over every run: identifiers stay in the map, flags stay set, nothing returns to Idle, the last stream identifier never decreases |
| `StreamRuns.SettingsStaySane` | src/http/v2.c:1779-1817 | checked settings keep the frame size in [2^14, 2^24] and the window below 2^31 |
| `StreamRuns.TableStaysValid` | src/http/v2.c:1786-1790 | settings keep the decompressor's table within its maximum |
| `StreamRuns.ReachableStep` | src/http/v2.c:2722-2740 | one frame keeps the invariant of reachable states |
| `StreamRuns.ReachableStatesAreSafe` | src/http/v2.c:2722-2740 | every reachable state: no stream 0, nothing Reserved, limits in range, identifiers bounded by the last one seen |
| `StreamRuns.InitialIsReachable` | src/http/v2.c:101-134 | the start of a connection satisfies it |
| `StreamRuns.UpgradeIsReachable` | src/http/v2.c:3403-3439 | so does an upgrade, but for stream 1 |
| `StreamRuns.BoundedIff` | src/http/v2.c:2710-2715 | in a reachable state no stream is beyond the last one seen if and only if stream 1 is not |
| `StreamRuns.LastStreamIdMoves` | src/http/v2.c:2710-2740 | over a run the last stream identifier leaves 0 exactly when a frame is processed on a stream |
| `StreamRuns.UpgradedRunIsBoundedIff` | src/http/v2.c:3403-3439 | after an upgrade and any run, no stream is beyond the last one seen if and only if one was seen before or is touched by the run |
| `StreamRuns.UpgradeSkipsLastStreamId` | src/http/v2.c:3423-3439 | right after an upgrade at the start of a connection the bound fails |
| `StreamRuns.StreamsDoNotInterfere` | src/http/v2.c:2135-2740 | a stream after any interleaved run is the stream after its own frames alone |
| `StreamRuns.ClosedStaysClosed` | src/http/v2.c:2135-2620 | without RST_STREAM a closed stream is closed after any run of its frames |
| `StreamRuns.FirstResetReopens` | src/http/v2.c:2437-2441 | the first RST_STREAM on a closed stream leaves it half closed |
| `StreamRuns.ClosedIsAbsorbingIff` | src/http/v2.c:2135-2620 | a closed stream is closed after every prefix of a run of its frames if and only if none is RST_STREAM |
| `StreamRuns.ClosedOnConnectionIff` | src/http/v2.c:2135-2740 | the same in a connection, among any other frames |
| `StreamRuns.ClosesIff` | src/http/v2.c:2113-2620 | a frame closes a stream exactly when it is refused, or a reset on a half-closed stream |
| `StreamRuns.BlocksAreWhatArrived` | src/http/v2.c:2048-2111 | a stream holds exactly the fragments and payloads since it entered the map, in order, if and only if none of its frames left it closed or nothing has arrived; resets included |
| `StreamRuns.ReportedIsNotClosed` | src/http/v2.c:2222-2237 | a reported stream is complete and keeps its blocks |
| `StreamRuns.ReportedRequestIsWholeIff` | src/http/v2.c:2135-2740 | a request reported by any connection, however interleaved, has exactly the header fragments and payloads of its own frames, in order, if and only if none of them left its stream closed; else it has no header block |
| `StreamRuns.SingleResetKeepsBlocks` | src/http/v2.c:2437-2441 | one reset before the last DATA frame loses nothing |
| `StreamRuns.ResetLosesBlocks` | src/http/v2.c:2437-2441 | three resets and a DATA frame report a request without its headers |
| `Fragmentation.ConcatDataBlocks` | src/http/v2.c:2747-2789 | the copied buffer is the blocks one behind the other |
| `Fragmentation.CollectHeaders` | src/http/v2.c:3510-3558 | the fragments of a header block add up to it on the stream, with one report at the end if the message ends there |
| `Fragmentation.CollectBody` | src/http/v2.c:3560-3592 | the fragments of a body add up to it on the stream, with one report at the end |
| `Fragmentation.MessageIsDeliveredIff` | src/http/v2.c:3510-3592 | fragment, then reassemble: one report, on the last frame, with the block and the body sent, exactly when there is a block and END_STREAM on HEADERS means no body |
| `Fragmentation.FramesArePieces` | src/http/v2.c:3487-3592 | the frames of a message in closed form: full pieces of the frame size, six bytes less for the header block, HEADERS first, the ends marked on the last ones |
| `Fragmentation.PrioritizedMessageIsDeliveredIff` | src/http/v2.c:2313-2337 | from an unused stream, a PRIORITY frame and then a message: it arrives whole and reported exactly when it is a single HEADERS frame |
| `Fragmentation.VerdictsDoNotInterfere` | src/http/v2.c:2135-2740 | in any interleaved run a stream gets the verdicts it would get alone |
| `Fragmentation.InterleavedMessageIsDeliveredIff` | src/http/v2.c:2135-2740 | a message among any frames of other streams arrives whole, reported once in the run and on its last frame, under the same condition |
| `Fragmentation.SendHeaders` | src/http/v2.c:3510-3558 | the bytes sent are those of the fragments, or sending fails with them |
| `Fragmentation.SendData` | src/http/v2.c:3560-3592 | the bytes sent are those of the fragments, or sending fails with them |
| `Fragmentation.WireExists` | src/http/v2.c:138-185 | frames can be written exactly when every payload fits 24 bits |
| `Fragmentation.HeadersCanBeSent` | src/http/v2.c:3489-3558 | within the peer's limits a header block can always be sent |
| `Fragmentation.BodyCanBeSentIff` | src/http/v2.c:3502-3592 | a body can be sent unless the frame size is 2^24 and the body fills a frame |
| `Fragmentation.LargestFrameCannotBeSent` | src/http/v2.c:1088 | that setting is accepted, and a body of 2^24 bytes is then lost |
| `RequestHead.TakePseudo` | src/http/v2.c:2884-2988 | a pseudo field is taken when it is known, acceptable and new; otherwise the list is no head |
| `RequestHead.ParseHead` | src/http/v2.c:2822-3012 | sections 8.1.2.1 and 8.1.2.3 of RFC 7540: parsing succeeds exactly for a prefix of distinct pseudo fields with method, scheme and path, and returns their values and the regular fields in order |
| `RequestHead.HeadIff` | src/http/v2.c:2822-3012 | what a request head is, name by name: a known method, a valid authority if there is one, each pseudo field once, regular fields behind |
| `RequestHead.HeadHolds` | src/http/v2.c:2822-3012 | the head has under each name the value of its field, and the regular fields in order |
| `Server.RequestFromStream` | src/http/v2.c:3014-3067 | a complete stream becomes its request, with the table of the connection moved on |
| `Server.ReadyIsStored` | src/http/v2.c:3114-3140 | a reported stream is in the map: the branch for a missing one is unreachable |
| `Server.ServeFrames` | src/http/v2.c:3069-3163 | the loop over the reader stops where the bytes of the stream complete a request |
| `Server.ParseRequest` | src/http/v2.c:3069-3163 | the next request of the connection, an error, or the peer's goodbye, and the connection each of them leaves |
| `Server.WireIsServed` | src/http/v2.c:3069-3163 | the bytes of a message are worked off exactly, with every other stream, the limits and the table untouched |
| `Server.QuietRunIsServed` | src/http/v2.c:3069-3163 | frames that complete nothing, refused ones among them, are worked off their bytes and serving goes on |
| `Server.RequestIsServed` | src/http/v2.c:3069-3163 | a request completed behind them is reported where its last frame ends |
| `Server.ServingEnds` | src/http/v2.c:3069-3163 | GOAWAY ends serving with its code kept, bytes that are no frame with an error |
| `Server.LimitsLeaveRoom` | src/http/v2.c:3489-3500 | the assertion of the header-size helper holds for every reachable limit |
| `Server.RequestArrives` | src/http/v2.c:3069-3163 | a surviving list compressed, fragmented and written as bytes is served as one request whose block decompresses to the list with the compressor's table |
| `Server.DeliverRequest` | src/http/v2.c:3014-3163 | the whole way through every layer with mutable tables and arbitrary pieces: the request has the head and body sent, and both tables are equal again |

## Left out

- Memory: allocation always succeeds, and the tail that a reallocation adds to the cyclic table is null, as its debug build makes it.
- `CyclicTable.Table.At`: the table is modelled in its fortified build, where unused slots are null; in the other build they hold stale entries that no call returns.
- `PrefixInteger.RoundTrip`: an overflowing shift of a C int is modelled as an error, since the language leaves it undefined; the test for more than ten bytes can then not be reached.
- `Hpack.Compress`: strings and tables are assumed smaller than 2^63 bytes, as any memory is; without that the size check of the encoders could fire.
- `Hpack.ParseStringAt`: a debug build asserts that a decoded string has no zero byte; that assertion is not modelled.
- `Huffman.EncodeInto`: when the encoding does not fit, the source clears one byte behind the given room before it notices; the caller here must own that byte, and the callers of the source always pass the exact size.
- `HpackLookup.StaticIsSound`: the generated string matching over several values of one key is taken as exact; only the comparison of single values is modelled as generated, with field values free of zero bytes in the compared part.
- Bytes are numbers from 0 to 255; the source's bitwise or of disjoint bits is an addition.
- Huffman padding other than one-bits, or of a byte and more, is not refused, as in the source, whose check is never reached (src/http/hpack_huffman.c:111-140); `Huffman.DecodeStringThen` says what happens instead.
- `Frames.FramingIsExact`: the promised identifier of PUSH_PROMISE is not part of the model, since the source reads it from behind the single byte it fetched; the frame itself can only carry stream 0 and is refused.
- The SETTINGS frames this end sends: their length field counts entries instead of bytes (src/http/v2.c:295), so they do not invert the parser.
- Frames sent in answer to errors, pings and settings, failures of the socket while sending, and logging.
- `BufferedReader.Reader.GetUntilDelimiter`: the delimiter is not empty; the source reads behind an empty one. An error of the descriptor comes behind all the bytes it delivers. Answers are copies here; in the source they point into the buffer until the next call.
- `Streams.Connection.CloseByIdentifier`: closing leaves empty block lists; the vector library is not part of this model.
- `StreamRuns.UpgradeIsReachable`: the upgrade starts on a connection without stream 1, as it does in the source; sending its own settings and reading the preface are left out.
- Header blocks are decompressed when their request completes, not when they arrive (src/http/v2.c:3014-3020), so the round trips are about blocks in the order of their completion; with interleaved streams that order can differ from the sender's.
- SETTINGS_HEADER_TABLE_SIZE is applied to the decompressor as the source does (src/http/v2.c:1786-1790); conformance with section 6.5.2 of RFC 7540 is not claimed, and the agreed size changes of `HpackRoundTrip.ConnectionRoundTrip` apply to both ends. The source's encoder writes no size update; the announced ones there are those of a peer that does.
- `RequestHead.ParseHead`: the parsers of methods, authorities and paths are other files; they are parameters, and a path is always accepted, as in the source.
- Flow control and priority trees: the source ignores WINDOW_UPDATE, and priorities are only stored.
- The generators of the static table and the Huffman tree, HTTP/1, FTP, routing, compression of bodies, TLS and authentication.
