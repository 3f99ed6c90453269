# Verified model of the native protocols and data structures

The Android application in this repository carries a set of C++ sources that its native half is built on. This
project models the parts of them that carry real algorithms and proves what they are for:

- **JSON** (`json/`): the recursive-descent `Reader` with its node stack and error recovery, and the `FastWriter` that
  prints 7-bit text with `\u` escapes and surrogate pairs (`JsonValue`, `JsonNumber`, `JsonString`, `JsonSyntax`,
  `JsonReader`, `JsonWriter`). What the reader is for is stated without it: a document is a tree that prints itself and
  has a meaning, with any white space and comments between its tokens (`JsonGrammar`), and the reader is proved to find
  exactly that meaning (`JsonTokens`, `JsonDocuments`). What a single fault makes of a document, wherever it stands, is
  in `JsonFaults`, what escapes and UTF-8 are in `JsonEscapes`, and that reader and writer undo each other in
  `JsonRoundTrip`.
- **Stream protocols of mongoose** (`http_server/mongoose.cpp`): WebSocket frames and the in-place reassembly of
  messages (`WsFrame`, `WsReassembly`, `WsCuts`), in-place decoding of chunked HTTP bodies (`HttpChunks`), MQTT
  packets and the receive loop (`Mqtt`), over the growable buffer all of them edit in place (`IoBuf`). For arbitrary
  bytes, each has the exact condition under which what it makes of them does not depend on how they are cut into
  reads: for WebSocket, that nothing happens behind an unknown opcode or a CLOSE frame; for chunks, that the code
  stays inside whatever part has arrived; for MQTT, that nothing complete stands behind a refused CONNACK. For
  conforming streams each is proved to deliver what was sent.
- **Data structures and algorithms of mongoose**: the lock-free frame queue as interleaved steps (`FrameQueue`), the
  glob matcher that remembers one wildcard (`Glob`, `GlobLimits`), the ARP cache linked inside a byte array
  (`ArpCache`), the streaming SHA-1 and MD5 frames (`Digest`, `Md5`), base64 together with `base64/base64.cpp`
  (`Base64`).
- **Inline classes of libhv** (`hv/`): the thread pool and the object pool as interleavings of any number of threads
  (`ThreadPool`, `ThreadPoolSteps`, `ThreadPoolRuns`, `ThreadPoolCalls`, `ObjectPool`), the contiguous ring allocator
  (`RingAllocator`), variable-length integers (`Varint`).

Code that changes fields, buffers or arrays is modelled by classes and methods over the same fields, each proved
against a function of the old state; the theorems are lemmas about those functions. Concurrent protocols are state
machines whose steps are the locked sections and single accesses of the code, and whose shared part is changed by the
same functions that specify the class methods. Functions that read or write bytes are tied to literal tables, to
positional values and to the examples of the standards. `Bytes`, `Digits`, `Bits`, `Modulo`, `Septets`, `Counting` and
`Wrappers` hold what several parts share.

Check everything with `dafny verify dfyconfig.toml`.

## Where the code does not do what it says

Each of these is proved, as the exact condition under which the code is right or as a concrete input or run, mostly as
both:

- A string comes back from the JSON round trip exactly if it was well-formed UTF-8 (`JsonString.StringRoundTrip`).
- The JSON reader accepts a closing brace behind a comma if the last member name was empty, as in `{"":1,}`
  (`JsonFaults.NameFails`), takes any token but a closing brace behind a comment for the comma between two members
  (`JsonFaults.MemberSeparatorFails`), and takes an unclosed block comment for a closed one if the document ends with a
  slash (`JsonFaults.UnclosedComment`).
- `mg_match` loops forever for some pattern exactly if a wildcard character of the subject stands directly behind a
  different character (`GlobLimits.AlwaysEndsIffTame`). Without wildcard characters in the subject, it is right for
  every pattern exactly if the subject has no slash, and for every pattern without `#` exactly if it has no slash or
  only slashes (`GlobLimits.RightForEveryPatternIff`, `GlobLimits.RightWithoutHashIff`).
- `getchunk` adds size and framing modulo 2^64. A chunk it accepts lies inside the buffer exactly if the sum stays
  below that (`HttpChunks.FoundInsideIff`); eighteen bytes are enough for one that does not
  (`HttpChunks.HugeChunkIsAccepted`).
- After a refused CONNACK the MQTT client goes on with what is in the buffer but reads no more, so that what is
  delivered depends on the cut exactly if something complete stands behind it (`Mqtt.CuttingDoesNotMatterIff`,
  `Mqtt.RefusalIsCutDependent`). The same holds for WebSocket behind an unknown opcode or a CLOSE frame
  (`WsCuts.CuttingDoesNotMatterIff`, `WsCuts.UnknownOpIsCutDependent`).
- A final WebSocket continuation without payload that nothing precedes, the two bytes 80 00, makes the length of the
  assembled message wrap: the handler is given 2^64 - 1 bytes. Only such a frame does it, and no conforming stream has
  one (`WsReassembly.LengthWrapsIff`, `WsReassembly.EmptyContinuationWraps`, `WsReassembly.ConformingNeverWraps`).
- A buffer shrunk below its contents, but not to nothing, keeps a length beyond its end (`IoBuffer.IoBuf.Resize`).
- An empty frame is accepted by the frame queue and jams it (`FrameQueue.EmptyFrameIsAccepted`,
  `FrameQueue.EmptyFrameJams`).
- The ARP cache is described as moving a found entry to the head of the list. It rotates the list instead, which is the
  same only for the first and the last entry (`ArpCache.HitMovesToFrontIff`); we follow the code.
- The thread pool exceeds its maximum in some interleaving exactly if two threads commit or start
  (`ThreadPoolRuns.MaximumHoldsIffOneClient`), leaves a task without a thread in some interleaving exactly if its
  minimum is zero (`ThreadPoolRuns.NeverStrandedIffMinimum`), and lets the `wait()` of its only client return in some
  interleaving while a task is queued or running exactly if the minimum is below the maximum and the maximum is at least
  two. C++ leaves open which of its two counters is read first; only a `wait()` that reads `idle_thread_num` first
  returns early (`ThreadPoolRuns.WaitReturnsEarlyIff`, `ThreadPoolRuns.CurrentFirstIsRight`).
- `HObjectPool::Borrow` ends with nothing in some interleaving while an object is idle exactly if there are two clients,
  and a place or an object to begin with (`ObjectPool.BorrowMissesIffTwoClients`).
- `HRingBuf` can refuse a block that an empty ring has room for: what it can give depends on where it stopped
  (`RingAllocator.HRingBuf.Alloc`, `RingAllocator.EmptyRingRefuses`).
- `mg_md5_update` cuts the length to 32 bits before shifting it, so its bit count is wrong for longer slices, with an
  exact condition (`Md5Digest.Md5PaddingRightIff`, `Md5Digest.LongSliceIsMiscounted`).
- `base64_encode` ends exactly for fewer than 2^32 bytes (`Base64.EncoderEndsIff`), and `varint_encode` exactly for
  values that are not negative (`Varint.EncoderEndsIff`).
- With MQTT 5 the payload of a PUBLISH begins with bytes of its property list exactly if the length of the list needs
  more than one byte, or list and payload have fewer than two bytes together
  (`Mqtt.PropertiesAreSkippedIff`, `Mqtt.PayloadReturnsIff`).

## Idealisations

Allocation succeeds, so that sizes of buffers stay far below 2^64. Bytes are integers from 0 to 255; wrap-around,
truncation and carries of machine words are written out. Bits combined with `|` that cannot overlap are added. Machine
words are stored in little-endian order. Letter tables are represented by the alphabet they list. Random masking keys,
the clock, the network and user handlers are parameters or recorded events. The frame queue assumes that its loads and
stores are sequentially consistent.

## Model

| member | source | states |
|---|---|---|
| JsonValue.LessIsTotal | app/src/main/cpp/third/json/json_value.cpp:314-329 | member names are ordered as bytes with the shorter first on a tie: of two different names exactly one is smaller |
| JsonValue.LessIsTransitive | app/src/main/cpp/third/json/json_value.cpp:314-329 | that order is transitive |
| JsonValue.LessIff | app/src/main/cpp/third/json/json_value.cpp:314-329 | one name is smaller if and only if, behind a common beginning, it ends or has the smaller byte |
| JsonValue.UpsertKeepsSorted | app/src/main/cpp/third/json/json_value.cpp:1083-1099 | storing a member keeps the names strictly ascending, hence unique |
| JsonValue.FindUpsert | app/src/main/cpp/third/json/json_value.cpp:1083-1099 | a lookup after a store finds the stored value under its name and the old value under every other name |
| JsonValue.UpsertTwice | app/src/main/cpp/third/json/json_value.cpp:1083-1099 | a second store under the same name replaces the first |
| JsonNumber.UintToString | app/src/main/cpp/third/json/json_tool.h:81-87 | writes exactly the decimal digits of the value and a NUL downwards into the buffer, within 21 bytes, and touches nothing else |
| JsonNumber.IntToString | app/src/main/cpp/third/json/json_writer.cpp:94-108 | the decimal text of every signed 64-bit integer, the minimum included |
| JsonNumber.UIntToString | app/src/main/cpp/third/json/json_writer.cpp:110-116 | the decimal text of every unsigned 64-bit integer |
| JsonNumber.DecodeNumber | app/src/main/cpp/third/json/json_reader.cpp:554-595 | for every token: the exact integer where the digits fit [-2^63, 2^64), else the hand-over to decodeDouble; the 64-bit accumulator never wraps |
| JsonNumber.OurDecodeNumber | app/src/main/cpp/third/json/json_reader.cpp:1606-1684 | the same function as the older decoder, with every intermediate result inside the signed 64-bit range |
| JsonNumber.IntegerRoundTrip | app/src/main/cpp/third/json/json_reader.cpp:554-595 | both decoders undo both printers on every 64-bit integer |
| JsonNumber.LoneMinusIsZero | app/src/main/cpp/third/json/json_reader.cpp:554-595 | a sign without digits is read as the integer 0 |
| JsonString.ValueToQuotedString | app/src/main/cpp/third/json/json_writer.cpp:275-350 | the loop computes the escaped text: short escapes, and \u escapes or surrogate pairs for everything outside printable ASCII |
| JsonString.PlainTextIsKept | app/src/main/cpp/third/json/json_writer.cpp:277-283 | the shortcut for strings that need no escaping gives the same text as the loop |
| JsonString.DecodeString | app/src/main/cpp/third/json/json_reader.cpp:629-681 | the loop over the token computes the decoding, with the position of the first problem otherwise; what that is, escape by escape from literal tables, is in JsonTokens.PieceReads and JsonFaults |
| JsonString.QuotedReads | app/src/main/cpp/third/json/json_reader.cpp:438-448 | for arbitrary bytes: the printed text is 7-bit, the scanner stops exactly at its closing quote, and the decoder accepts it |
| JsonString.StringRoundTrip | app/src/main/cpp/third/json/json_writer.cpp:188-350 | decoding a printed string gives the original bytes if and only if they were well-formed UTF-8 (NUL and supplementary characters included); malformed bytes come back as well-formed UTF-8 |
| JsonString.UnitReads | app/src/main/cpp/third/json/json_reader.cpp:683-732 | every escape the printer emits is scanned over without meeting the closing quote and decodes to its code point |
| JsonString.CharacterRoundTrip | app/src/main/cpp/third/json/json_tool.h:39-65 | decoding one well-formed UTF-8 character and encoding it gives its bytes back |
| JsonString.EncodedIsCharacter | app/src/main/cpp/third/json/json_tool.h:39-65 | what codePointToUTF8 emits is one well-formed UTF-8 character |
| JsonEscapes.CaseDoesNotMatter | app/src/main/cpp/third/json/json_reader.cpp:708-732 | for any string text, acceptable or not: writing a to f as A to F, or back, in any escapes changes nothing about what decodeString makes of it |
| JsonEscapes.Utf8IsPositional | app/src/main/cpp/third/json/json_tool.h:39-65 | section 3 of RFC 3629: the length follows from the value, and the value from the bits of the bytes |
| JsonEscapes.TruncatedIsReplaced | app/src/main/cpp/third/json/json_writer.cpp:188-246 | a character cut off at the end, and every byte from 0xF8 on, is printed as \ufffd |
| JsonEscapes.NotShortestIsReplaced | app/src/main/cpp/third/json/json_writer.cpp:188-246 | an encoding longer than need be, and an encoded surrogate, is printed as \ufffd |
| JsonEscapes.PlainIsKept | app/src/main/cpp/third/json/json_writer.cpp:277-350 | printable ASCII but quotation mark and backslash is printed as it is |
| JsonEscapes.NamedIsEscaped | app/src/main/cpp/third/json/json_writer.cpp:290-318 | the seven two-character escapes, from a literal table |
| JsonEscapes.ControlIsEscaped | app/src/main/cpp/third/json/json_writer.cpp:319-326 | every other control character is \u00 and two lower-case digits of its value |
| JsonReader.Reader.SkipSpaces | app/src/main/cpp/third/json/json_reader.cpp:316-324 | the cursor stops at the next character that is not white space, as the loop of the specification does; JsonTokens.GapSkipped says which characters and comments are passed |
| JsonReader.Reader.Match | app/src/main/cpp/third/json/json_reader.cpp:326-335 | backwards comparison: accepts exactly the literal, and moves past it only then |
| JsonReader.Reader.ReadComment | app/src/main/cpp/third/json/json_reader.cpp:337-358 | C and C++ comments end where the scanner function says |
| JsonReader.Reader.ReadNumber | app/src/main/cpp/third/json/json_reader.cpp:416-436 | the longest number text from the first character on |
| JsonReader.Reader.ReadString | app/src/main/cpp/third/json/json_reader.cpp:438-448 | the closing quote that no backslash hides, or the end of the document |
| JsonReader.Reader.ReadToken | app/src/main/cpp/third/json/json_reader.cpp:245-314 | kind and extent of the next token, for every byte |
| JsonReader.Reader.RecoverFromError | app/src/main/cpp/third/json/json_reader.cpp:743-754 | skips to a token of the wanted kind or the end, and drops the errors made on the way |
| JsonReader.Reader.ReadObject | app/src/main/cpp/third/json/json_reader.cpp:450-504 | cursor, node stack, error list and value after an object, with every recovery path, are those of the grammar function |
| JsonReader.Reader.ReadArray | app/src/main/cpp/third/json/json_reader.cpp:506-542 | the same for an array |
| JsonReader.Reader.ReadValue | app/src/main/cpp/third/json/json_reader.cpp:155-233 | the node stack is left as found except for the value on top; the exception is thrown exactly beyond 1000 nodes |
| JsonReader.Reader.Parse | app/src/main/cpp/third/json/json_reader.cpp:116-153 | the outcome of the functional reader, true exactly when no error was recorded, with the cursor inside the document; JsonDocuments.DocumentReads and JsonFaults.FaultIsReported say which |
| JsonSyntax.ValueErrors | app/src/main/cpp/third/json/json_reader.cpp:155-233 | for every byte string and depth: a value read is successful if and only if it added no error |
| JsonSyntax.ValueWithinLimit | app/src/main/cpp/third/json/json_reader.cpp:155-163 | a value around whose tokens the brackets nest less deep than a bound up to the limit is read without the exception, and a success leaves no more nesting than that to come |
| JsonSyntax.ParseIsTotal | app/src/main/cpp/third/json/json_reader.cpp:116-153 | every byte string whose brackets nest less than 1000 deep around its tokens, an empty innermost pair not counted, well-formed or not, parses to a normal return, true exactly when the error list is empty, cursor inside |
| JsonSyntax.ThousandBracketsAreRead | app/src/main/cpp/third/json/json_reader.cpp:155-163 | the bound is attained: a thousand brackets, one inside the other, are read |
| JsonTokens.BlanksSkipped | app/src/main/cpp/third/json/json_reader.cpp:316-324 | any run of blanks, tabs, line feeds and carriage returns is passed over |
| JsonTokens.GapSkipped | app/src/main/cpp/third/json/json_reader.cpp:235-243 | reading on from any mixture of white space, block comments and line comments is reading on from behind it |
| JsonTokens.NumeralToken | app/src/main/cpp/third/json/json_reader.cpp:416-436 | sign, digits, fraction and exponent are one number token, to the last of them |
| JsonTokens.NumeralDecodes | app/src/main/cpp/third/json/json_reader.cpp:554-595 | the positional value of the digits where it has 64 bits and there is neither fraction nor exponent, else the hand-over |
| JsonTokens.FourDigitsDecode | app/src/main/cpp/third/json/json_reader.cpp:708-732 | four digits of either letter case, from literal tables, decode to their positional value |
| JsonTokens.PieceReads | app/src/main/cpp/third/json/json_reader.cpp:629-732 | a plain byte, each of the eight letter escapes, a \u escape and a pair of them are scanned whole and decoded to the bytes they stand for |
| JsonTokens.StringTokenReads | app/src/main/cpp/third/json/json_reader.cpp:438-448 | a string of such pieces is one token, and decodes to their bytes joined |
| JsonDocuments.NodeReads | app/src/main/cpp/third/json/json_reader.cpp:155-233 | every value of the grammar, wherever it stands, is read whole as what it means, or the exception is thrown, exactly by its height |
| JsonDocuments.ItemsRead | app/src/main/cpp/third/json/json_reader.cpp:506-542 | the same for the rest of an array, with any gaps around its elements |
| JsonDocuments.FieldsRead | app/src/main/cpp/third/json/json_reader.cpp:450-504 | the same for the rest of an object, with any gaps around names and values |
| JsonDocuments.DocumentReads | app/src/main/cpp/third/json/json_reader.cpp:116-153 | parse on every document of the grammar, with white space and comments between its tokens: its meaning, without error, up to 1000 levels, and the exception beyond |
| JsonGrammar.LastMemberCounts | app/src/main/cpp/third/json/json_reader.cpp:450-504 | of several members of one name the last one counts |
| JsonFaults.PathLeads | app/src/main/cpp/third/json/json_reader.cpp:155-233 | a value that fails inside any open arrays and objects makes each of them fail with the same error, keep what it had read, and skip to its own closing bracket |
| JsonFaults.FaultIsReported | app/src/main/cpp/third/json/json_reader.cpp:116-153 | parse on a document that leads to a fault, whatever follows: it returns false with the one error of the fault, and the value read so far |
| JsonFaults.ValueFails | app/src/main/cpp/third/json/json_reader.cpp:155-233 | a token that begins no value is reported as such |
| JsonFaults.StringFails | app/src/main/cpp/third/json/json_reader.cpp:618-681 | a string that cannot be decoded is reported with the place of its flaw |
| JsonFaults.NumberFails | app/src/main/cpp/third/json/json_reader.cpp:597-616 | a numeral that is no integer and that the conversion to a double refuses is reported |
| JsonFaults.ElementSeparatorFails | app/src/main/cpp/third/json/json_reader.cpp:527-540 | neither a comma nor a closing bracket behind an element |
| JsonFaults.NameFails | app/src/main/cpp/third/json/json_reader.cpp:456-474 | no name where one is due; a closing brace is accepted there at the start, and behind a comma exactly if the last name was empty |
| JsonFaults.BadNameFails | app/src/main/cpp/third/json/json_reader.cpp:462-467 | a name that cannot be decoded |
| JsonFaults.ColonFails | app/src/main/cpp/third/json/json_reader.cpp:476-480 | no colon behind a name |
| JsonFaults.MemberSeparatorFails | app/src/main/cpp/third/json/json_reader.cpp:488-503 | neither a comma nor a closing brace nor a comment behind a member; behind a comment every token but a closing brace is taken for a comma |
| JsonFaults.BadLetterFails | app/src/main/cpp/third/json/json_reader.cpp:637-676 | a backslash at the end, or before a letter that stands for nothing |
| JsonFaults.BadDigitsFail | app/src/main/cpp/third/json/json_reader.cpp:708-732 | too few characters behind \u, or one that is no digit, and where that is reported |
| JsonFaults.LoneHalfFails | app/src/main/cpp/third/json/json_reader.cpp:683-706 | the first half of a surrogate pair without a second escape behind it |
| JsonFaults.OtherByteIsError | app/src/main/cpp/third/json/json_reader.cpp:245-314 | a byte that begins no token is an error token of its own |
| JsonFaults.OtherWordIsError | app/src/main/cpp/third/json/json_reader.cpp:245-314 | so is the first letter of a word that is no keyword |
| JsonFaults.UnclosedComment | app/src/main/cpp/third/json/json_reader.cpp:391-398 | a block comment that is not closed is an error up to the end of the document, unless its last byte is a slash |
| JsonFaults.UnclosedString | app/src/main/cpp/third/json/json_reader.cpp:438-448 | so is a string that is not closed |
| JsonFaults.RecoverStopsAtFirst | app/src/main/cpp/third/json/json_reader.cpp:743-754 | skipping stops behind the first token of the wanted kind, or at the end |
| JsonWriter.FastWriter.Write | app/src/main/cpp/third/json/json_writer.cpp:373-379 | for every value, document_ is its compact text and a line feed |
| JsonWriter.FastWriter.WriteValue | app/src/main/cpp/third/json/json_writer.cpp:381-432 | appends the text of any value to document_ |
| JsonRoundTrip.NumeralReads | app/src/main/cpp/third/json/json_reader.cpp:416-436 | a printed integer is scanned as one number token to its last digit |
| JsonRoundTrip.StringReads | app/src/main/cpp/third/json/json_reader.cpp:438-448 | a printed string is scanned as one string token |
| JsonRoundTrip.ValueReads | app/src/main/cpp/third/json/json_reader.cpp:155-233 | wherever the text of a value stands in a document, readValue consumes exactly it, makes no error, and rebuilds the value |
| JsonRoundTrip.ElementsRead | app/src/main/cpp/third/json/json_reader.cpp:506-542 | the same for the rest of an array |
| JsonRoundTrip.MembersRead | app/src/main/cpp/third/json/json_reader.cpp:450-504 | the same for the rest of an object |
| JsonRoundTrip.DocumentRoundTrip | app/src/main/cpp/third/json/json_writer.cpp:373-432 | parsing what FastWriter wrote gives the value back with no error for every storable value at most 1000 levels deep, and throws beyond that |
| JsonRoundTrip.SpacedRoundTrip | app/src/main/cpp/third/json/json_reader.cpp:116-153 | the same for the text of FastWriter with white space and comments put in before and behind its tokens |
| JsonRoundTrip.PrintedIsLaidOut | app/src/main/cpp/third/json/json_writer.cpp:373-432 | what FastWriter prints is the text of a grammar tree without gaps that means the value |
| JsonRoundTrip.CanonIsSame | app/src/main/cpp/third/json/json_value.cpp:314-329 | the value rebuilt has the same shape, strings and member names, and numbers equal as integers, when all text is well-formed UTF-8 |
| JsonRoundTrip.WriteThenRead | app/src/main/cpp/third/json/json_helper.cpp:24-51 | Json2String followed by ToJson is accepted and gives the same value |
| IoBuffer.IoBuf.Resize | app/src/main/cpp/third/http_server/mongoose.cpp:2400-2425 | keeps the bytes that fit; the length stays inside the buffer if and only if the new size is 0 or holds the contents |
| IoBuffer.RoundUpIsLeast | app/src/main/cpp/third/http_server/mongoose.cpp:2396-2398 | sizes are rounded up to the least multiple of the alignment that is large enough |
| IoBuffer.DeletedBytes | app/src/main/cpp/third/http_server/mongoose.cpp:2446-2453 | the bytes left after a deletion are those whose index is outside the range, in order |
| IoBuffer.IoBuf.Add | app/src/main/cpp/third/http_server/mongoose.cpp:2434-2444 | inserts bytes at an offset and moves the rest up; behind the contents it leaves an unspecified gap |
| IoBuffer.IoBuf.Del | app/src/main/cpp/third/http_server/mongoose.cpp:2446-2453 | closes a gap in place with clamped bounds and clears the freed tail |
| IoBuffer.IoBuf.MoveDown | app/src/main/cpp/third/http_server/mongoose.cpp:2221-2280 | memmove towards the front with overlapping ranges |
| Bits.XorTwice | app/src/main/cpp/third/http_server/mongoose.cpp:5751-5757 | exclusive or with the same byte twice changes nothing |
| Bits.XorIsBitwise | app/src/main/cpp/third/http_server/mongoose.cpp:5713-5716 | each of the eight bits of an exclusive or is the sum of the two bits modulo 2 |
| Bits.OrIsSum | app/src/main/cpp/third/http_server/mongoose.cpp:4900-4904 | or with bits below the set ones is addition |
| WsFrame.MaskedTwice | app/src/main/cpp/third/http_server/mongoose.cpp:5751-5757 | masking twice with one key gives the payload back |
| WsFrame.MaskedBit | app/src/main/cpp/third/http_server/mongoose.cpp:5713-5716 | section 5.3 of RFC 6455, bit by bit: bit j of byte i is the sum of bit j of the payload byte and of key byte i mod 4, modulo 2 |
| WsFrame.ZeroKey | app/src/main/cpp/third/http_server/mongoose.cpp:5713-5716 | the key of four zeros leaves the payload as it is |
| WsFrame.MaskedBoth | app/src/main/cpp/third/http_server/mongoose.cpp:5713-5716 | masking under one key and then another is masking under the exclusive or of the keys |
| WsFrame.LengthIsBigEndian | app/src/main/cpp/third/http_server/mongoose.cpp:5723-5749 | seven bits, two bytes or eight bytes, the highest first, with the boundaries of section 5.2 of RFC 6455 |
| WsFrame.RfcExamples | app/src/main/cpp/third/http_server/mongoose.cpp:5723-5757 | the frames of section 5.7 of RFC 6455, byte for byte |
| WsFrame.HelloIsUnmasked | app/src/main/cpp/third/http_server/mongoose.cpp:5693-5721 | the masked example of that section is received as the five bytes of Hello |
| WsFrame.HugeIsIgnored | app/src/main/cpp/third/http_server/mongoose.cpp:5693-5721 | a frame of more than 2^30 bytes is never taken |
| WsFrame.FrameParses | app/src/main/cpp/third/http_server/mongoose.cpp:5693-5721 | for payloads up to 2^30 bytes, any mask and any bytes following: ws_process finds header, payload and length of a sent frame and unmasks it |
| WsFrame.PrefixIsIncomplete | app/src/main/cpp/third/http_server/mongoose.cpp:5693-5721 | on every strict prefix of a frame ws_process returns 0 and changes nothing |
| WsFrame.WsProcess | app/src/main/cpp/third/http_server/mongoose.cpp:5693-5721 | decides on the bytes from an offset on and unmasks the payload in place; everything else in the buffer stays; WsFrame.FrameParses, MaskedBit and HelloIsUnmasked say what the payload becomes |
| WsFrame.MkHdr | app/src/main/cpp/third/http_server/mongoose.cpp:5723-5749 | the header of sections 5.2 and 5.3 of RFC 6455 for each of the three length forms |
| WsFrame.WsMask | app/src/main/cpp/third/http_server/mongoose.cpp:5751-5757 | combines the last bytes of the send buffer with the four key bytes before them, bit by bit as in WsFrame.MaskedBit |
| WsFrame.WsSend | app/src/main/cpp/third/http_server/mongoose.cpp:5759-5768 | appends exactly one masked or unmasked frame and returns its size |
| WsFrame.WsWrap | app/src/main/cpp/third/http_server/mongoose.cpp:5911-5923 | turns payload already in the send buffer into the same frame by an in-place shift |
| WsReassembly.WsConnection.ApplyFrame | app/src/main/cpp/third/http_server/mongoose.cpp:5835-5855 | the end of the loop body: delete the frame, or strip its header and keep the fragment, or deliver the whole message and empty the front |
| WsReassembly.WsConnection.FrameTurn | app/src/main/cpp/third/http_server/mongoose.cpp:5799-5855 | one turn of the loop is one turn of the functional callback |
| WsReassembly.WsConnection.WsCb | app/src/main/cpp/third/http_server/mongoose.cpp:5790-5859 | buffer, pfn_data, events, is_closing and is_draining after the callback are those of the functional loop, for every buffer |
| WsReassembly.WsConnection.Read | app/src/main/cpp/third/http_server/mongoose.cpp:5790-5859 | the same after new bytes arrive |
| WsReassembly.FrameTurnMeans | app/src/main/cpp/third/http_server/mongoose.cpp:5799-5855 | on a conforming stream a turn stores flags and fragments as byte 0 and bytes [1, ofs), and emits what the frame means |
| WsReassembly.CloseIsAnswered | app/src/main/cpp/third/http_server/mongoose.cpp:5815-5828 | a CLOSE frame is shown to the handler and answered with its payload |
| WsReassembly.OthersEnd | app/src/main/cpp/third/http_server/mongoose.cpp:5829-5832 | exactly the opcodes 3 to 7 and 11 to 15 end the connection with an error, and exactly 8 lets it drain |
| WsReassembly.ReservedBitsAreIgnored | app/src/main/cpp/third/http_server/mongoose.cpp:5799-5805 | the three reserved bits change neither the opcode nor whether a frame is final |
| WsReassembly.RunFeeds | app/src/main/cpp/third/http_server/mongoose.cpp:5790-5859 | the loop consumes exactly the complete frames of a stream prefix |
| WsReassembly.ReadsFeed | app/src/main/cpp/third/http_server/mongoose.cpp:5790-5859 | between reads, for any division of a conforming stream: byte 0 holds the first flags, bytes [1, ofs) the fragments so far, the rest is an incomplete frame, and the connection stays open |
| WsReassembly.LengthWrapsIff | app/src/main/cpp/third/http_server/mongoose.cpp:5847-5850 | a turn hands the handler a message of 2^64 - 1 bytes if and only if nothing is assembled and the frame is a final continuation without payload |
| WsReassembly.EmptyContinuationWraps | app/src/main/cpp/third/http_server/mongoose.cpp:5847-5850 | the two bytes 80 00 do so |
| WsReassembly.ConformingNeverWraps | app/src/main/cpp/third/http_server/mongoose.cpp:5847-5850 | no stream that conforms to section 5.4 of RFC 6455 ever does |
| WsReassembly.Receive | app/src/main/cpp/third/http_server/mongoose.cpp:5790-5859 | the connection for any bytes: it is read until an unknown opcode, or until it has been drained after a CLOSE frame |
| WsCuts.RunAppend | app/src/main/cpp/third/http_server/mongoose.cpp:5790-5859 | for every buffer: what one callback makes of it and of more bytes is the loop on the first part, continued on the rest |
| WsCuts.CuttingDoesNotMatter | app/src/main/cpp/third/http_server/mongoose.cpp:5790-5859 | if no event stands behind an unknown opcode or a CLOSE frame, the events of any reads, however late a draining connection is closed, are those of a single read; and so are buffer and position while it stays open |
| WsCuts.CuttingDoesNotMatterIff | app/src/main/cpp/third/http_server/mongoose.cpp:5790-5859 | for every byte string: all cuttings and all times of closing give the events of a single read if and only if no event stands behind an unknown opcode or a CLOSE frame |
| WsCuts.UnknownOpIsCutDependent | app/src/main/cpp/third/http_server/mongoose.cpp:5829-5832 | a frame with an unknown opcode and a text: in one read the text is delivered, cut between them it is not |
| WsReassembly.MessagesAreReassembled | app/src/main/cpp/third/http_server/mongoose.cpp:5790-5859 | any run of messages in any number of fragments with PING and PONG frames between them and any division into reads: one MSG per message, in order, with the whole payload; every PING is answered with its payload, and the events are exactly those of the stream, in its order |
| WsReassembly.StreamShowsMessages | app/src/main/cpp/third/http_server/mongoose.cpp:5790-5859 | the messages among these events are those that were sent |
| WsReassembly.ReceiveAll | app/src/main/cpp/third/http_server/mongoose.cpp:5790-5859 | the same for the connection object, read by read; its buffer ends empty |
| HttpChunks.UnhexHexText | app/src/main/cpp/third/http_server/mongoose.cpp:4894-4904 | mg_unhexn inverts the hexadecimal printer below 2^64 |
| HttpChunks.SizeCaseDoesNotMatter | app/src/main/cpp/third/http_server/mongoose.cpp:4894-4904 | the letter case of a to f in a size does not matter, whatever its other bytes are |
| HttpChunks.DenotesIff | app/src/main/cpp/third/http_server/mongoose.cpp:4894-4904 | the digits of a size, of either case and with zeros in front, are read by position |
| HttpChunks.HexTextDenotes | app/src/main/cpp/third/http_server/mongoose.cpp:568-588 | the printed size denotes its number, also in upper case and with zeros in front |
| HttpChunks.PrintHex | app/src/main/cpp/third/http_server/mongoose.cpp:568-588 | digits from the low end and the in-place reversal give the hexadecimal text |
| HttpChunks.WriteChunk | app/src/main/cpp/third/http_server/mongoose.cpp:1649-1654 | appends one chunk of section 7.1 of RFC 9112, which getchunk finds again |
| HttpChunks.FoundInsideIff | app/src/main/cpp/third/http_server/mongoose.cpp:2221-2232 | with all sums of getchunk modulo 2^64: a chunk it accepts lies inside the bytes received if and only if size + size digits + 4 stays below 2^64 |
| HttpChunks.UnwrappedStaysInside | app/src/main/cpp/third/http_server/mongoose.cpp:2221-2232 | below 2^64 getchunk never looks outside the bytes either, whatever they are |
| HttpChunks.HugeChunkIsAccepted | app/src/main/cpp/third/http_server/mongoose.cpp:2221-2232 | a size line of eighteen bytes after which getchunk accepts a chunk of 2^64 - 2 bytes |
| HttpChunks.ChunkIsFound | app/src/main/cpp/third/http_server/mongoose.cpp:2221-2232 | getchunk finds a whole chunk, its size in digits of either case with any zeros in front, whatever follows it |
| HttpChunks.PrefixIsNotFound | app/src/main/cpp/third/http_server/mongoose.cpp:2221-2232 | no strict prefix of a chunk is taken for one |
| HttpChunks.OpenChunkIsNotFound | app/src/main/cpp/third/http_server/mongoose.cpp:2221-2232 | nothing is found without CRLF behind the data |
| HttpChunks.BadSizeLineIsNotFound | app/src/main/cpp/third/http_server/mongoose.cpp:2221-2232 | nor behind a size line that CR or LF alone ends |
| HttpChunks.ChunkedMessage.DeliverChunkedChunks | app/src/main/cpp/third/http_server/mongoose.cpp:2246-2280 | for every buffer, as long as the chunks accepted lie inside it: they are moved down onto the body, the framing is removed once, the bytes behind stay, body.len is exact; and whether they do. Which chunks these are is in HttpChunks.TakeFeeds |
| HttpChunks.TakeFeeds | app/src/main/cpp/third/http_server/mongoose.cpp:2257-2268 | on a prefix of a chunked body the loop takes exactly the complete chunks |
| HttpChunks.ReadsFeed | app/src/main/cpp/third/http_server/mongoose.cpp:2246-2280 | after any reads of a prefix of the stream the complete chunks are in place, in order |
| HttpChunks.BodyIsReassembled | app/src/main/cpp/third/http_server/mongoose.cpp:2246-2280 | for any read boundaries: body is the concatenation of the chunks, the following bytes are untouched |
| HttpChunks.ReceiveBody | app/src/main/cpp/third/http_server/mongoose.cpp:2246-2280 | the same for the buffer itself, with body.len exact |
| HttpChunks.TakeAppend | app/src/main/cpp/third/http_server/mongoose.cpp:2257-2268 | for any bytes: chunks taken stay taken when more bytes arrive, and the rest is taken as if it stood alone |
| HttpChunks.CuttingDoesNotMatter | app/src/main/cpp/third/http_server/mongoose.cpp:2246-2280 | for any bytes and any cuts for which the code stays inside them: body, rest, events and completion are those of a single read |
| HttpChunks.CuttingDoesNotMatterIff | app/src/main/cpp/third/http_server/mongoose.cpp:2246-2280 | for every byte string: all cuttings stay inside the bytes and agree with a single read if and only if getchunk stays inside every part of them that can have arrived |
| HttpChunks.ShortSizesMayBeCut | app/src/main/cpp/third/http_server/mongoose.cpp:2246-2280 | this is so if the size lines, chunk by chunk, are at most fifteen hexadecimal digits |
| HttpChunks.ReceiveReads | app/src/main/cpp/third/http_server/mongoose.cpp:2246-2280 | the same for the buffer itself, with any bytes: contents, events and body.len are those of the reads, or the code has left the bytes |
| FrameQueue.Queue.CopyIn | app/src/main/cpp/third/http_server/mongoose.cpp:6662-6667 | a copy into the ring, split at the wrap |
| FrameQueue.Queue.CopyOut | app/src/main/cpp/third/http_server/mongoose.cpp:6669-6673 | a copy out of the ring, split at the wrap |
| FrameQueue.Queue.Write | app/src/main/cpp/third/http_server/mongoose.cpp:6675-6685 | accepts a frame exactly when size and payload fit, and stores both |
| FrameQueue.Queue.Read | app/src/main/cpp/third/http_server/mongoose.cpp:6699-6706 | copies the frame at the tail and moves the tail past it |
| FrameQueue.WordRoundTrip | app/src/main/cpp/third/http_server/mongoose.cpp:6679-6696 | the stored size reads back |
| FrameQueue.FrameIsAcceptedIffItFits | app/src/main/cpp/third/http_server/mongoose.cpp:6675-6685 | while the reader stands still a frame is accepted if and only if it and its size fit beside what is unread, with one byte to spare |
| FrameQueue.StepKeepsInv | app/src/main/cpp/third/http_server/mongoose.cpp:6675-6706 | every step of producer and consumer, in any interleaving and with a stale tail, keeps the ring holding the unread stream byte for byte |
| FrameQueue.DeliveredIsPrefix | app/src/main/cpp/third/http_server/mongoose.cpp:6675-6706 | in every interleaving the frames read are a prefix of the frames accepted |
| FrameQueue.UnreadBytesAreStable | app/src/main/cpp/third/http_server/mongoose.cpp:6675-6685 | no step writes into published, unread bytes |
| FrameQueue.CopiesStayInside | app/src/main/cpp/third/http_server/mongoose.cpp:6662-6706 | when a copy is due its range lies inside the ring |
| FrameQueue.EmptyFrameJams | app/src/main/cpp/third/http_server/mongoose.cpp:6693-6706 | an empty frame at the tail is taken for an empty queue: no later step delivers anything |
| FrameQueue.EmptyFrameIsAccepted | app/src/main/cpp/third/http_server/mongoose.cpp:6675-6706 | a run from the empty queue, for any ring of nine bytes or more, that ends with an accepted empty frame |
| FrameQueue.NonEmptyFrameIsDelivered | app/src/main/cpp/third/http_server/mongoose.cpp:6699-6706 | a non-empty frame at the tail is delivered by the reader's next four steps |
| Glob.MgMatch | app/src/main/cpp/third/http_server/mongoose.cpp:4819-4849 | for any subject, pattern and byte past the subject for which the loop ends: the answer of its turns |
| Glob.CoveredIsAnswered | app/src/main/cpp/third/http_server/mongoose.cpp:4819-4849 | for subjects without wildcard characters and either no * in the pattern or no / in the subject the loop ends, and answers true exactly when the declarative match exists |
| Glob.WildcardsAlone | app/src/main/cpp/third/http_server/mongoose.cpp:4819-4849 | ? is any one character, * anything without a slash, # anything |
| Glob.LaterRunTakesOver | app/src/main/cpp/third/http_server/mongoose.cpp:4819-4849 | forgetting the earlier wildcard when a later one is reached loses no match |
| Glob.StarInSubjectCycles | app/src/main/cpp/third/http_server/mongoose.cpp:4819-4849 | a concrete subject containing * brings the loop back to an earlier state |
| Glob.StarCrossesSlash | app/src/main/cpp/third/http_server/mongoose.cpp:4819-4849 | a concrete subject with slashes is accepted although * may not match a slash |
| GlobLimits.AlwaysEndsIffTame | app/src/main/cpp/third/http_server/mongoose.cpp:4819-4849 | for every pattern and byte past the subject the loop ends if and only if no wildcard character of the subject stands directly behind a different character |
| GlobLimits.RightForEveryPatternIff | app/src/main/cpp/third/http_server/mongoose.cpp:4819-4849 | for a subject without wildcard characters: every pattern gets the declarative answer if and only if the subject has no slash |
| GlobLimits.RightWithoutHashIff | app/src/main/cpp/third/http_server/mongoose.cpp:4819-4849 | the same for patterns without #: if and only if the subject has no slash or only slashes |
| GlobLimits.HashStarIsRefused | app/src/main/cpp/third/http_server/mongoose.cpp:4819-4849 | the pattern #*, which matches everything, is refused for every plain subject with a slash |
| ArpCache.Arp.constructor | app/src/main/cpp/third/http_server/mongoose.cpp:6740-6745 | zeroed memory initialised: one cycle through all entries, head first, no address stored |
| ArpCache.Arp.Init | app/src/main/cpp/third/http_server/mongoose.cpp:6740-6745 | the byte links of a zeroed cache become one cycle in both directions |
| ArpCache.Arp.Find | app/src/main/cpp/third/http_server/mongoose.cpp:6758-6772 | result and new head are those of the lookup function; the links stay one cycle with p[0] the entry before p[1] |
| ArpCache.Arp.Search | app/src/main/cpp/third/http_server/mongoose.cpp:6764-6771 | the walk along the byte links returns the first entry with the address |
| ArpCache.Arp.Add | app/src/main/cpp/third/http_server/mongoose.cpp:6774-6783 | a new address replaces the last entry, which becomes the head; links stay one cycle |
| ArpCache.FoundIffPresent | app/src/main/cpp/third/http_server/mongoose.cpp:6758-6772 | an ordinary address is found if and only if some entry holds it, and then its own entry is returned |
| ArpCache.SpecialLookups | app/src/main/cpp/third/http_server/mongoose.cpp:6758-6763 | the zero address is never found, the two broadcast addresses always are, and neither changes the cache |
| ArpCache.RunKeepsUnique | app/src/main/cpp/third/http_server/mongoose.cpp:6758-6783 | no run of lookups and additions makes two entries share a non-zero address |
| ArpCache.AddressesStayUnique | app/src/main/cpp/third/http_server/mongoose.cpp:6740-6783 | the same from the zeroed cache |
| ArpCache.LookupKeepsKnowledge | app/src/main/cpp/third/http_server/mongoose.cpp:6758-6772 | a lookup changes no binding |
| ArpCache.InsertKnowledge | app/src/main/cpp/third/http_server/mongoose.cpp:6774-6783 | exactly which bindings an addition makes, keeps and forgets |
| ArpCache.FoundEntrySurvives | app/src/main/cpp/third/http_server/mongoose.cpp:6758-6783 | an entry just found survives the next N - 1 additions of new addresses when nothing else is found in between |
| ArpCache.OneMoreEvictsIt | app/src/main/cpp/third/http_server/mongoose.cpp:6774-6783 | the bound is exact: the next addition evicts it |
| ArpCache.HitMovesToFrontIff | app/src/main/cpp/third/http_server/mongoose.cpp:6732-6737 | a hit rotates the list; it is the move to the front the comment speaks of if and only if the entry was first or last |
| ArpCache.AdditionMovesLastToFront | app/src/main/cpp/third/http_server/mongoose.cpp:6732-6737 | an addition takes the last place and moves it to the front |
| ArpCache.RecentlyUsedIsEvicted | app/src/main/cpp/third/http_server/mongoose.cpp:6732-6737 | a concrete run in which a recently found entry is evicted before one that was never looked up |
| ThreadPool.HThreadPool.Take | app/src/main/cpp/third/hv/hthreadpool.h:158-174 | the locked section of the worker: leave, shrink, go round again, or take the oldest task |
| ThreadPool.HThreadPool.AddThread | app/src/main/cpp/third/hv/hthreadpool.h:185-197 | both counters go up by one and the thread enters the list as running |
| ThreadPool.HThreadPool.DelThread | app/src/main/cpp/third/hv/hthreadpool.h:199-219 | both counters go down by one; the walk that erases while it iterates computes the swept list |
| ThreadPool.SweepKeepsRunning | app/src/main/cpp/third/hv/hthreadpool.h:204-217 | a running thread stays in the list as running if and only if it is not the one that leaves |
| ThreadPool.SweepKeepsRecent | app/src/main/cpp/third/hv/hthreadpool.h:204-217 | a stopped thread stays in the list exactly while no second has passed since it stopped |
| ThreadPoolSteps.StepKeepsInv | app/src/main/cpp/third/hv/hthreadpool.h:70-219 | every step of any number of clients and workers keeps the invariant of tasks, counters and lock |
| ThreadPoolRuns.TakenInCommitOrder | app/src/main/cpp/third/hv/hthreadpool.h:128-183 | in every reachable state tasks were taken in commit order, and under each number at most its own task ran, once |
| ThreadPoolRuns.CountersBalance | app/src/main/cpp/third/hv/hthreadpool.h:149-219 | until stop(): idle + busy = current, current = threads alive minus those not yet registered, and how far below zero idle may go |
| ThreadPoolRuns.ShrinkingKeepsMinimum | app/src/main/cpp/third/hv/hthreadpool.h:164-168 | a worker that leaves for idleness leaves at least the minimum behind |
| ThreadPoolRuns.MinimumIsKept | app/src/main/cpp/third/hv/hthreadpool.h:70-79 | a running pool has the minimum of threads whenever no start() is in progress |
| ThreadPoolRuns.MaximumIsKept | app/src/main/cpp/third/hv/hthreadpool.h:128-183 | with n client threads there are never more than max + n - 1 threads |
| ThreadPoolRuns.MaximumHoldsIffOneClient | app/src/main/cpp/third/hv/hthreadpool.h:149-183 | some interleaving exceeds the maximum if and only if there are two clients |
| ThreadPoolRuns.CommitLeavesIdleThreads | app/src/main/cpp/third/hv/hthreadpool.h:128-147 | with one client, and while nobody stops or shrinks the pool: below the maximum, a finished commit leaves at least as many idle threads as queued tasks |
| ThreadPoolRuns.CommitAlone | app/src/main/cpp/third/hv/hthreadpool.h:128-147 | a commit that nobody interferes with creates a thread if and only if the idle ones are no more than the queued tasks and the maximum is not reached |
| ThreadPoolRuns.StartAlone | app/src/main/cpp/third/hv/hthreadpool.h:70-79 | start() on a fresh pool creates as many threads as asked for, within the limits |
| ThreadPoolRuns.WaitIsRightAtOneMoment | app/src/main/cpp/third/hv/hthreadpool.h:110-118 | what wait() tests, read at one moment, means that every committed task has run exactly once |
| ThreadPoolRuns.WaitReturnsEarlyIff | app/src/main/cpp/third/hv/hthreadpool.h:110-118 | with one client and the two counters read in either order, some interleaving makes wait() return while a task is queued or running if and only if the minimum is below the maximum and the maximum is at least two; and then it has read idle_thread_num first |
| ThreadPoolRuns.CurrentFirstIsRight | app/src/main/cpp/third/hv/hthreadpool.h:110-118 | with one client, a wait() that reads cur_thread_num first returns only when every task has run |
| ThreadPoolRuns.MinimumPreventsStranding | app/src/main/cpp/third/hv/hthreadpool.h:128-169 | with a minimum of at least one, a queued task never finds a running pool without threads and nobody creating one |
| ThreadPoolRuns.NeverStrandedIffMinimum | app/src/main/cpp/third/hv/hthreadpool.h:128-169 | a committed task can be left without any thread in some interleaving if and only if the minimum is zero |
| ThreadPoolCalls.EveryCommitIsQueued | app/src/main/cpp/third/hv/hthreadpool.h:128-147 | in every run of any number of clients and workers: what is queued, or has been, and what a call still holds is what was handed to commit(), each task as often; and when no call is in progress nothing is held |
| ThreadPoolCalls.PauseHoldsBack | app/src/main/cpp/third/hv/hthreadpool.h:96-157 | after pause(), until resume() or stop(), no more tasks are taken than threads were past the test for a pause |
| ThreadPoolCalls.ResumeUndoesPause | app/src/main/cpp/third/hv/hthreadpool.h:96-108 | resume() undoes pause() and the other way round, and neither does anything to a stopped pool |
| ThreadPoolCalls.StartIsIgnoredIff | app/src/main/cpp/third/hv/hthreadpool.h:70-79 | start() does nothing if and only if the pool is not stopped |
| ThreadPoolCalls.WaitReturnsIffReadingsAgree | app/src/main/cpp/third/hv/hthreadpool.h:110-118 | in any run with any number of threads: a turn of wait() ends its loop if and only if the two counters, read at two moments in either order, were the same number |
| ObjectPool.HObjectPool.TryBorrow | app/src/main/cpp/third/hv/hobjectpool.h:50-58 | the oldest idle object leaves the list, or null |
| ObjectPool.HObjectPool.Reserve | app/src/main/cpp/third/hv/hobjectpool.h:66-70 | a place is reserved exactly while the count is below the maximum |
| ObjectPool.HObjectPool.Return | app/src/main/cpp/third/hv/hobjectpool.h:94-99 | a non-null object joins the idle list at its end |
| ObjectPool.HObjectPool.Add | app/src/main/cpp/third/hv/hobjectpool.h:101-110 | a pointer, null or not, is taken in exactly while the count is below the maximum |
| ObjectPool.HObjectPool.Remove | app/src/main/cpp/third/hv/hobjectpool.h:112-126 | the first occurrence leaves the list and the count, and nothing else changes |
| ObjectPool.OldestFirst | app/src/main/cpp/third/hv/hobjectpool.h:50-99 | objects are lent in the order in which they became idle |
| ObjectPool.NobodyWaits | app/src/main/cpp/third/hv/hobjectpool.h:72-92 | without a time to wait no client ever waits |
| ObjectPool.BorrowAlone | app/src/main/cpp/third/hv/hobjectpool.h:60-76 | a Borrow that nobody interferes with lends a new object when none is idle and there is room; if the factory fails, everything is as before |
| ObjectPool.WithoutTakesOne | app/src/main/cpp/third/hv/hobjectpool.h:112-126 | removal takes one occurrence and keeps all others |
| ObjectPool.StepKeepsInv | app/src/main/cpp/third/hv/hobjectpool.h:50-126 | every locked section of any client keeps count and separation |
| ObjectPool.CountIsExact | app/src/main/cpp/third/hv/hobjectpool.h:50-126 | in every reachable state _object_num = idle + lent + being created, and it stays within the maximum if it began there |
| ObjectPool.BorrowNumIsLent | app/src/main/cpp/third/hv/hobjectpool.h:46-48 | BorrowNum() is never negative: it counts what is lent or being created |
| ObjectPool.NoObjectInTwoPlaces | app/src/main/cpp/third/hv/hobjectpool.h:50-126 | no object is lent twice, lent and idle, or idle twice |
| ObjectPool.BorrowMissesIffTwoClients | app/src/main/cpp/third/hv/hobjectpool.h:60-92 | from any initial pool, and whether or not the factory may fail: some interleaving ends a Borrow with nothing while an object is idle if and only if there are two clients, and a place or an object to begin with |
| ObjectPool.BorrowCanMissAnIdleObject | app/src/main/cpp/third/hv/hobjectpool.h:60-92 | a concrete interleaving in which Borrow times out with nothing although an object is idle |
| RingAllocator.HRingBuf.Alloc | app/src/main/cpp/third/hv/hbuf.h:210-233 | a block is handed out if and only if one may follow the youngest; it is contiguous, inside the buffer and disjoint from all live blocks; what an empty ring can give depends on where it stopped; no length, no change |
| RingAllocator.HRingBuf.Free | app/src/main/cpp/third/hv/hbuf.h:235-244 | head, tail and size after any length; with the length of the oldest block the head moves behind it, even across the unrecorded gap at the wrap |
| RingAllocator.LiveBlocksAreDisjoint | app/src/main/cpp/third/hv/hbuf.h:210-244 | all live blocks lie inside the buffer and no two overlap |
| RingAllocator.HRingBuf.constructor | app/src/main/cpp/third/hv/hbuf.h:204-208 | an empty ring of the given capacity, with head and tail at 0 |
| RingAllocator.EmptyRingRefuses | app/src/main/cpp/third/hv/hbuf.h:210-244 | a concrete run in which an empty ring of ten bytes refuses seven |
| Digest.Sha1.Update | app/src/main/cpp/third/http_server/mongoose.cpp:3830-3848 | state, count words and buffer after an update are those of absorbing the bytes |
| Digest.Sha1.AddBits | app/src/main/cpp/third/http_server/mongoose.cpp:3834-3837 | the two count words go up by eight times the length modulo 2^64, carry included |
| Digest.Sha1.Pad | app/src/main/cpp/third/http_server/mongoose.cpp:3859-3864 | the loop on the masked count appends 0x80 and exactly the zeros that leave eight bytes in the block |
| Digest.Sha1.Final | app/src/main/cpp/third/http_server/mongoose.cpp:3850-3872 | the digest bytes of the chaining value over pending bytes, padding and length field; the context is cleared |
| Digest.AbsorbTwice | app/src/main/cpp/third/http_server/mongoose.cpp:3830-3848 | two updates are one update with the bytes joined |
| Digest.AbsorbInStep | app/src/main/cpp/third/http_server/mongoose.cpp:3830-3848 | the low count bits always give the number of buffered bytes |
| Digest.Sha1UpdateAllIsOne | app/src/main/cpp/third/http_server/mongoose.cpp:3830-3848 | any slicing gives the context of one update, with the count equal to the bit length modulo 2^64 |
| Digest.FramedTail | app/src/main/cpp/third/http_server/mongoose.cpp:3850-3865 | padding what is pending and going on is folding over the padded message |
| Digest.BigEndianIsPositional | app/src/main/cpp/third/http_server/mongoose.cpp:3850-3872 | length field and digest words are base-256 numbers with the highest byte first |
| Digest.LittleIsBigReversed | app/src/main/cpp/third/http_server/mongoose.cpp:3010-3038 | for MD5 with the lowest byte first |
| Digest.WordsInOrder | app/src/main/cpp/third/http_server/mongoose.cpp:3866-3869 | the digest bytes are the words in order, each as four bytes |
| Digest.Sha1StartsWith | app/src/main/cpp/third/http_server/mongoose.cpp:3821-3828 | the initial words of section 5.3.1 of FIPS 180-4, as bytes |
| Digest.AbcIsPadded | app/src/main/cpp/third/http_server/mongoose.cpp:3850-3865 | the padding of the three bytes abc, as in section 5.1.1 of FIPS 180-4, and for MD5 |
| Digest.Sha1Slices | app/src/main/cpp/third/http_server/mongoose.cpp:3821-3872 | however the message is cut into updates, the digest is the fold over the padded message of section 5.1.1 of FIPS 180-4 |
| Md5Digest.Md5.Update | app/src/main/cpp/third/http_server/mongoose.cpp:2975-3008 | state, count words and buffer after an update |
| Md5Digest.Md5.AddBits | app/src/main/cpp/third/http_server/mongoose.cpp:2978-2980 | the count goes up by eight times the length cut to 32 bits |
| Md5Digest.Md5.Final | app/src/main/cpp/third/http_server/mongoose.cpp:3010-3038 | one or two last blocks: the digest of the chaining value over pending bytes, padding and count |
| Md5Digest.LittleWordsInOrder | app/src/main/cpp/third/http_server/mongoose.cpp:3028-3037 | the digest bytes are the words in order, each as four bytes |
| Md5Digest.Md5StartsWith | app/src/main/cpp/third/http_server/mongoose.cpp:2883-2891 | the initial words of section 3.3 of RFC 1321, as bytes |
| Md5Digest.UpdateAllIsOne | app/src/main/cpp/third/http_server/mongoose.cpp:2975-3008 | any slicing gives the chaining value and pending bytes of one update |
| Md5Digest.Md5PaddingRightIff | app/src/main/cpp/third/http_server/mongoose.cpp:2978-2980 | the padded message is that of RFC 1321 if and only if the 2^32-byte units lost from the slice lengths are a multiple of 2^29 |
| Md5Digest.SmallSlices | app/src/main/cpp/third/http_server/mongoose.cpp:2975-3038 | slices below 2^32 bytes give the digest of RFC 1321 sections 3.1 and 3.2, however the message is cut |
| Md5Digest.LongSliceIsMiscounted | app/src/main/cpp/third/http_server/mongoose.cpp:2978-2980 | a slice of 2^32 bytes is counted as 0 and padded otherwise than RFC 1321 asks |
| Md5Digest.Md5Slices | app/src/main/cpp/third/http_server/mongoose.cpp:2883-3038 | the context object computes that digest |
| Base64.Update | app/src/main/cpp/third/http_server/mongoose.cpp:58-72 | one byte extends the letters in the buffer, with the bits left over kept in place of the next letter |
| Base64.Final | app/src/main/cpp/third/http_server/mongoose.cpp:74-83 | flushes the open group, pads to four letters, terminates |
| Base64.MgEncode | app/src/main/cpp/third/http_server/mongoose.cpp:85-90 | the streamed text is the encoding of section 4 of RFC 4648, while its length is an int |
| Base64.LetterIsTabulated | app/src/main/cpp/third/http_server/mongoose.cpp:28-38 | the letters are those of tables 1 and 2 of RFC 4648 |
| Base64.QuadByPosition | app/src/main/cpp/third/http_server/mongoose.cpp:58-72 | the 24 bits of three bytes are the 24 bits of four letters, the highest first |
| Base64.PairByPosition | app/src/main/cpp/third/http_server/mongoose.cpp:74-83 | two bytes are three letters and one padding |
| Base64.SingleByPosition | app/src/main/cpp/third/http_server/mongoose.cpp:74-83 | one byte is two letters and two paddings |
| Base64.RfcExamples | app/src/main/cpp/third/http_server/mongoose.cpp:85-90 | the examples of section 10 of RFC 4648 |
| Base64.MgDecode | app/src/main/cpp/third/http_server/mongoose.cpp:92-108 | the decoded bytes with a terminator, or 0 on malformed input, for a length that is an int |
| Base64.MgDecodesEncoded | app/src/main/cpp/third/http_server/mongoose.cpp:92-108 | mg_base64_decode inverts the encoding for every byte string |
| Base64.MgRevIff | app/src/main/cpp/third/http_server/mongoose.cpp:40-56 | a letter is read as its index in table 1, and nothing else is |
| Base64.MgAcceptedIff | app/src/main/cpp/third/http_server/mongoose.cpp:92-108 | a text is decoded if and only if each whole group has letters of table 1, or padding in its last two places |
| Base64.Bcpy | app/src/main/cpp/third/http_server/mongoose.cpp:632-648 | the printer gives the same encoding between quotes, and its length |
| Base64.EncoderEndsIff | app/src/main/cpp/third/base64/base64.cpp:130-136 | with the position counted modulo 2^32, the loop of base64_encode ends if and only if the length is below 2^32 |
| Base64.Encode | app/src/main/cpp/third/base64/base64.cpp:111-160 | for those lengths base64_encode gives the same encoding, and the url form of it |
| Base64.InsertLinebreaks | app/src/main/cpp/third/base64/base64.cpp:73-89 | in-place insertion gives the broken text |
| Base64.BreaksAt | app/src/main/cpp/third/base64/base64.cpp:73-89 | a line break stands at a position if and only if a full line ends there |
| Base64.Decode | app/src/main/cpp/third/base64/base64.cpp:163-241 | the decoder with both exceptions, and with the removal of line breaks |
| Base64.DecodesEncoded | app/src/main/cpp/third/base64/base64.cpp:163-241 | the decoder inverts the encoder in both alphabets with all, some or none of the padding |
| Base64.RoundTrip | app/src/main/cpp/third/base64/base64.cpp:111-241 | base64_decode inverts base64_encode in both alphabets |
| Base64.BrokenRoundTrip | app/src/main/cpp/third/base64/base64.cpp:91-104 | base64_decode with removal undoes the PEM and MIME line breaks |
| Base64.AcceptedIffWellFormed | app/src/main/cpp/third/base64/base64.cpp:163-241 | the decoder accepts a text if and only if no letter stands alone at its end and every letter is legal at its place |
| Base64.PosOfIff | app/src/main/cpp/third/base64/base64.cpp:45-63 | a letter is read as its index in either table, and nothing else is |
| Base64.LoneLetterIff | app/src/main/cpp/third/base64/base64.cpp:163-241 | the out_of_range exception is thrown if and only if a single letter is left over behind an accepted text |
| Mqtt.Connection.SendHeader | app/src/main/cpp/third/http_server/mongoose.cpp:3058-3069 | command byte and at most four length bytes |
| Mqtt.Connection.Pub | app/src/main/cpp/third/http_server/mongoose.cpp:3135-3152 | appends one PUBLISH, with the next non-zero identifier when QoS asks for one |
| Mqtt.MqttParse | app/src/main/cpp/third/http_server/mongoose.cpp:3166-3229 | the verdict and every field of the message, for every buffer and version, as the functional parser has them; Mqtt.IdParses, ConnackAnswers, OthersParse and PublishParses say which from the bytes |
| Mqtt.ParseStable | app/src/main/cpp/third/http_server/mongoose.cpp:3166-3229 | once the verdict is not INCOMPLETE further bytes do not change it |
| Mqtt.LengthReads | app/src/main/cpp/third/http_server/mongoose.cpp:3177-3185 | the length bytes written for a length below 2^28 read back to it |
| Mqtt.LengthTable | app/src/main/cpp/third/http_server/mongoose.cpp:3058-3069 | the lengths at which section 2.2.3 of MQTT 3.1.1 changes the number of bytes, and its example 321 |
| Mqtt.IdParses | app/src/main/cpp/third/http_server/mongoose.cpp:3195-3206 | for the commands 4 to 11 the identifier is the first two body bytes, the high one first |
| Mqtt.ConnackAnswers | app/src/main/cpp/third/http_server/mongoose.cpp:3191-3194 | the answer of a CONNACK is its second body byte |
| Mqtt.OthersParse | app/src/main/cpp/third/http_server/mongoose.cpp:3166-3229 | the commands with an identifier or an answer are malformed with fewer than two bytes; the others are not looked into |
| Mqtt.PublishParses | app/src/main/cpp/third/http_server/mongoose.cpp:3207-3225 | topic, identifier and payload of any PUBLISH, with version 5 properties of any length |
| Mqtt.PropertiesAreSkippedIff | app/src/main/cpp/third/http_server/mongoose.cpp:3219-3222 | version 5 properties with their length of one to four bytes: the payload is recovered if and only if that length is one byte and two bytes follow it |
| Mqtt.PublishExample | app/src/main/cpp/third/http_server/mongoose.cpp:3135-3152 | the example of section 3.3.2 of MQTT 3.1.1, byte for byte |
| Mqtt.IdentifiersCircle | app/src/main/cpp/third/http_server/mongoose.cpp:3145-3148 | identifiers go through 1 to 65535 in a circle |
| Mqtt.ConnackClosesIff | app/src/main/cpp/third/http_server/mongoose.cpp:3245-3253 | a CONNACK closes the connection if and only if its code is not 0 |
| Mqtt.PublishedParses | app/src/main/cpp/third/http_server/mongoose.cpp:3135-3229 | topic, identifier, QoS and datagram length of a PUBLISH are recovered with any bytes following, for both versions, with what becomes of the payload |
| Mqtt.PayloadReturnsIff | app/src/main/cpp/third/http_server/mongoose.cpp:3219-3222 | the payload is recovered if and only if the version is 4 or it has at least two bytes |
| Mqtt.PrefixIsIncomplete | app/src/main/cpp/third/http_server/mongoose.cpp:3173-3187 | every strict prefix of a PUBLISH is INCOMPLETE |
| Mqtt.Receiver.Read | app/src/main/cpp/third/http_server/mongoose.cpp:3231-3276 | the receive loop delivers all complete datagrams, keeps the rest, and closes exactly after a malformed datagram or a refused CONNACK |
| Mqtt.DrainAppend | app/src/main/cpp/third/http_server/mongoose.cpp:3231-3276 | bytes that arrive later are drained as if they had been there, wherever they are still read |
| Mqtt.CuttingDoesNotMatter | app/src/main/cpp/third/http_server/mongoose.cpp:3231-3276 | if nothing complete stands behind a refused CONNACK, messages, closing and kept bytes do not depend on how a byte string is cut into reads |
| Mqtt.CuttingDoesNotMatterIff | app/src/main/cpp/third/http_server/mongoose.cpp:3231-3276 | for every byte string: all cuttings agree with a single read if and only if nothing complete stands behind a refused CONNACK |
| Mqtt.RefusalIsCutDependent | app/src/main/cpp/third/http_server/mongoose.cpp:3245-3260 | a refused CONNACK and a PUBLISH: in one read both are delivered, cut between them only the first |
| Mqtt.PublicationsArrive | app/src/main/cpp/third/http_server/mongoose.cpp:3135-3276 | every publication of a run arrives once and in order for any division into reads |
| Varint.EncoderEndsIff | app/src/main/cpp/third/hv/hmath.h:28-39 | with the arithmetic shift, the loop of varint_encode ends if and only if the value is not negative |
| Varint.Encode | app/src/main/cpp/third/hv/hmath.h:28-39 | writes the encoding of a value below 2^63 in at most nine bytes |
| Varint.VarintLength | app/src/main/cpp/third/hv/hmath.h:28-39 | k bytes are enough if and only if the value is below 128^k |
| Varint.LastByteEnds | app/src/main/cpp/third/hv/hmath.h:28-39 | a byte of the encoding is below 0x80 if and only if it is the last |
| Varint.Decode | app/src/main/cpp/third/hv/hmath.h:42-66 | value and length, not enough bytes, or no end within ten bytes |
| Varint.RoundTrip | app/src/main/cpp/third/hv/hmath.h:42-66 | decoding inverts encoding on [0, 2^63) with any bytes following |
| Varint.DecodeIsTwosComplement | app/src/main/cpp/third/hv/hmath.h:42-66 | for any bytes that end within ten: the number in two's complement whose bits they hold, of up to 64, and the length |
| Varint.DecodeFailsIff | app/src/main/cpp/third/hv/hmath.h:42-66 | not enough bytes if and only if fewer than ten all go on, no end if and only if ten do |
| Varint.PrefixIsNotEnough | app/src/main/cpp/third/hv/hmath.h:42-66 | every strict prefix of an encoding is reported as not enough |

## Left out

- JsonNumber.DecodeNumber: what `decodeDouble` makes of a token it is handed is a parameter (`toReal`), and a double is named by the text that `valueToString` gives it.
- JsonReader.Reader.ReadComment: comments are skipped as in the code, but not collected, as with `collectComments` false; offsets of values are not kept.
- JsonReader.Reader.ReadValue: the node stack holds values that a caller stores back into their container after the call, where the code holds pointers into the containers; aliasing of parent and child is not captured.
- JsonWriter.FastWriter.Write: how `valueToString` finds the digits of a real number; the options for YAML, dropped nulls and the ending line feed keep their defaults; StyledWriter and the stream builders are not modelled.
- IoBuffer.IoBuf.Resize: failing allocation.
- IoBuffer.IoBuf.Add: failing allocation; offsets so far behind the contents that the rounded size does not hold the bytes, which the code writes behind its buffer; no caller here passes such an offset.
- WsReassembly.WsConnection.WsCb: the replies to PING and CLOSE are recorded as events and not framed again; a handler of the error event that clears `is_closing`; the upgrade handshake.
- HttpChunks.ChunkedMessage.DeliverChunkedChunks: what happens after an accepted chunk that does not lie inside the buffer, which is undefined; the handler deletes no chunk and does not touch the receive buffer.
- HttpChunks.WriteChunk: data within 20 bytes of 2^64.
- FrameQueue.StepKeepsInv: weaker memory models than sequential consistency.
- Glob.MgMatch: captures.
- ArpCache.Arp.constructor: cache sizes above 21 entries, whose offsets do not fit a byte.
- ThreadPoolSteps.StepKeepsInv: `stop()` does not overlap with `start()`, `commit()` or `wait()`; limits do not change while the pool runs; `commit()`'s test reads the size of the task queue, a data race, and the two counters in one step; futures and exceptions of tasks.
- ObjectPool.StepKeepsInv: `Clear`, clients that return what they did not borrow, and null pointers among the idle objects.
- RingAllocator.HRingBuf.Free: what a ring hands out after it was given another length than that of the oldest block; `clear`.
- Digest.Sha1.Update: the compression function is a parameter; lengths within 64 bytes of 2^64, where the sum of length and buffered bytes would wrap.
- Md5Digest.Md5.Update: the compression function is a parameter; the byte swapping of big-endian machines.
- Base64.MgEncode: texts whose encoding is longer than the largest `int`.
- Base64.MgDecode: texts longer than the largest `int`; a null source.
- Base64.Encode: 2^32 bytes and more, for which the loop does not end (`Base64.EncoderEndsIff`).
- Mqtt.Receiver.Read: acknowledgements sent for QoS above 0.
- Varint.Encode: negative values, for which the loop does not end (`Varint.EncoderEndsIff`).
- HVLBuf, the byte deque, and the other wrappers of libhv: easy members.
- Sockets, event loops, TLS, DNS, file systems, directory listings, network drivers, SNTP and floating-point printing: input, output and rounding.
- JNI, the Java sources, hooking, signal and crash code, HttpServer routing, ArgumentParser and the Channel wrappers: glue.
