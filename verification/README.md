# Verified models of the socket.io client's codecs, parsers and queue

This project models, in Dafny, the parts of the client that turn bytes into structures and back, and the
queue between the application and the network:

- the JSON engine: two parsers for one language, the writer, the document with its handler, and the pool
  allocator beneath them;
- the socket.io codec: message trees split into a text frame and numbered binary frames, the packet parser,
  reassembly across frames, and the packet queue of a socket, for one thread and for any interleaving;
- the WebSocket frame layer: headers, and masking by bytes and by machine words;
- byte codecs: UTF-8 twice, UTF-16, MD5 streaming and padding, base64.

Each component comes in two layers. Modules ending in `Spec` (and `Encodings`, `Acks`, `Reassembly`,
`WireRoundTrip`, `SocketThreads`, `SocketClient`) hold functions on values and the theorems about them.
Beside them stand classes and methods in the form of the source, with its cursors, stacks, buffers, arrays and
loops (`Reader`, `Writer`, `Document`, `Allocator`, `EncodingStreams`, `Utf8Validator`, `Packets`, `Socket`,
`FrameMask`, `FrameHeader`, `Md5`, `Base64`); each of their methods is proved against a function of the first
layer.

The language itself is defined apart from both parsers, in `Grammar`: a relation between a piece of text and
the tree that it stands for, after section 2 of RFC 4627, and apart from it the exceptions that the reader
makes. `GrammarTokens`, `EventTrees` and `GrammarComplete` prove that the parsers accept exactly this language
less the exceptions, with exactly this meaning.

`dafny verify dfyconfig.toml` checks everything.

## What the code does that its documentation does not say

- `RAPIDJSON_ALIGN` masks with a 32-bit constant, so a 64-bit size above 0xFFFFFFFC is cut to its lower
  half. The allocator's guarantees hold if and only if every request stays at or below that limit
  (`AllocatorSpec.StepSafe`, `AllocatorSpec.OversizeOverlaps`).
- `from_json` takes an object with a true "_placeholder" for an attachment, and an assertion fails on one
  whose "_placeholder" is no boolean. A message survives the wire if and only if each of its "_placeholder"
  keys stands for false (`WireRoundTrip.EncodeThenPut`).
- Packets can leave the socket out of order, and a packet can stay queued on a connected, idle socket until
  the next emit, if and only if there is more than one thread (`SocketThreads.OrderIffOneThread`,
  `SocketThreads.SendsAllIffOneThread`).
- on_close clears m_client whether or not a call is between its test of m_client and its use of it. With more
  than one thread a packet can be sent through a client that is gone (`SocketClient.GoneIffManyThreads`,
  `SocketThreads.SentThroughNothing`). It is enough that on_close waits for such calls
  (`SocketClient.WaitingIsEnough`), but not needed (`SocketClient.WaitingIsNotNeeded`);
  `SocketClient.GoneIffDoomed` gives the states from which it can happen.
- An ack id of 2^31 or more is negative as `int` and is not written into the packet (`Socket.IdIsWritten`).
  When the counter that all sockets share has gone round, a waiting callback can be replaced
  (`Acks.CalledOnce`).
- A second announcing header takes the place of a packet that still waits for attachments: the first packet is
  lost, or its attachments go to the second (`Reassembly.CompletedIff`, `WireRoundTrip.OneIsLost`).
- A binary header that announces no attachment waits for one all the same, and is then dispatched with no
  message (`WireRoundTrip.ZeroHeaderWaits`).
- The reader refuses some texts of section 2 of RFC 4627, scalars as roots allowed: those with an escaped lead
  surrogate that no escaped trail surrogate follows, and those with a number whose positive exponent passes
  308 or whose integer digits before the last reach a tenth of the largest double. It takes all others
  (`GrammarComplete.ParseIsGrammar`, `GrammarComplete.LoneLeadRefused`,
  `GrammarComplete.LargeExponentRefused`, `GrammarComplete.ManyDigitsRefused`). Unless it validates, it also
  takes strings that are not UTF-8; an escaped trail surrogate alone is taken even then. A text ends at its
  first NUL.
- A bad hexadecimal digit in a `\u` escape sets the error, yet the string loop goes on with code point 0; the
  parse still fails, possibly with a later error. The later error is a second assignment, on which an
  assertion of the reader fails; the model records it and goes on, as a build without assertions does.
  `ReaderSpec.AssignsTwice` says on which strings this happens.
- An array or object with 2^32 entries or more is read, but SizeType has lost count, and ParseStream is left
  with more than one value (`DocumentSpec.OneRoot`).
- The comments on word_mask_circ and byte_mask_circ speak of trailing bytes that are rewritten with their
  old values; the code writes exactly `length` bytes, and so does the model.

## Model

| member | source | states |
|---|---|---|
| ParsersAgree.TwoParsersAgree | lib/rapidjson/include/rapidjson/reader.h:1394-1424 | On every text, with every flag setting and against every handler, the table-driven parser delivers the same events as the recursive one (names, values, member and element counts) and accepts or rejects alike; only error codes may differ |
| ParsersAgree.ValueSim | lib/rapidjson/include/rapidjson/reader.h:1233-1372 | From any state that waits for a value, with any containers open, the loop does what the recursive descent does for that value and for all that follows it |
| ParsersAgree.AfterValueSim | lib/rapidjson/include/rapidjson/reader.h:1303-1358 | Where a value has ended, delimiting, closing and going on around the container agree with the recursive loops |
| IterativeSpec.Transit | lib/rapidjson/include/rapidjson/reader.h:1233-1372 | A transition that is no error keeps the stack shape (Start only at the bottom, Element or MemberValue above) and consumes input |
| IterativeSpec.DepthIsBalance | lib/rapidjson/include/rapidjson/reader.h:1245-1358 | A transition keeps the depth of the stack equal to the number of containers that the events leave open |
| IterativeSpec.HeadAt | lib/rapidjson/include/rapidjson/reader.h:1399-1417 | Every state in which the loop can come to its head satisfies the stack invariant and carries no error |
| IterativeSpec.EveryHead | lib/rapidjson/include/rapidjson/reader.h:1394-1424 | In every reachable state there is one state/count pair per open container, and n turns have consumed at least n bytes, so the loop ends |
| IterativeSpec.NoUnderflow | lib/rapidjson/include/rapidjson/reader.h:1303-1346 | Whenever the tables lead to a pop or a count, the stack is not empty |
| IterativeSpec.ScalarOnly | lib/rapidjson/include/rapidjson/reader.h:1287-1297 | ParseValue is only called where no bracket or brace opens |
| IterativeSpec.ScalarFlat | lib/rapidjson/include/rapidjson/reader.h:1360-1366 | A scalar adds exactly one event, and none that opens or closes a container |
| Reader.Reader.SkipWhitespace | lib/rapidjson/include/rapidjson/reader.h:253-262 | Moves the cursor to the first byte that is none of the four spaces |
| Reader.Reader.ParseLiteral | lib/rapidjson/include/rapidjson/reader.h:557-594 | Reads null, true or false as the specification does, cursor and error offset included |
| Reader.Reader.ParseHex4 | lib/rapidjson/include/rapidjson/reader.h:598-616 | Four digits give their value; a bad digit sets the error, is taken, and gives 0; where an error was set before, the assertion that errors are assigned once fails |
| Reader.Reader.ParseEscape | lib/rapidjson/include/rapidjson/reader.h:690-711 | Either the string goes on behind the escape with the decoded bytes added, or the scan ends with the error of the specification; how far a second assignment is still to come is tracked |
| Reader.Reader.ParseStringToStream | lib/rapidjson/include/rapidjson/reader.h:672-728 | The loop over a string computes ScanString: text, cursor and the error that stands at the end; an error is assigned twice exactly on the strings of AssignsTwice |
| Reader.Reader.SetError | lib/rapidjson/include/rapidjson/reader.h:96-101 | RAPIDJSON_PARSE_ERROR: outside of strings its assertion holds at every use |
| Reader.Reader.ParseUnicode | lib/rapidjson/include/rapidjson/reader.h:697-707 | The four digits of an escape and, for a lead surrogate, the other half of the pair |
| ReaderSpec.TwiceFails | lib/rapidjson/include/rapidjson/reader.h:96-101 | A string on which an error is assigned twice is refused: no accepted text meets the failing assertion |
| ReaderSpec.SecondError | lib/rapidjson/include/rapidjson/reader.h:598-616 | A bad hexadecimal digit at the end of the text assigns two errors; with a closing quotation mark only one |
| Reader.Reader.ParseString | lib/rapidjson/include/rapidjson/reader.h:643-667 | One String or Key event, or the error |
| Reader.Reader.ParseInt32 | lib/rapidjson/include/rapidjson/reader.h:787-826 | The 32-bit accumulator never overflows, holds the decimal value of the digits taken, and stops exactly where the next digit leaves its range |
| Reader.Reader.ParseInt64 | lib/rapidjson/include/rapidjson/reader.h:827-853 | The same for the 64-bit accumulator, with 2^63 and 2^64-1 as limits |
| Reader.Reader.ParseBigDigits | lib/rapidjson/include/rapidjson/reader.h:855-862 | The digits of a number read as double, each taken while the value before it is below the limit |
| Reader.Reader.ParseInteger | lib/rapidjson/include/rapidjson/reader.h:787-862 | Double is used exactly when the decimal value leaves -2^63 to 2^64-1, 64 bits exactly when it leaves the 32-bit range, and the accumulator in use holds the value |
| Reader.Reader.ParseNumber | lib/rapidjson/include/rapidjson/reader.h:776-975 | The event carries the decimal value in the narrowest class, negation at both minima included; 0 with a minus is an Int |
| Reader.DigitsExceed | lib/rapidjson/include/rapidjson/reader.h:801-817 | Once the next digit would leave a range, the whole run of digits does |
| Reader.BigDigitsSkip | lib/rapidjson/include/rapidjson/reader.h:855-862 | The double loop started behind an exact 64-bit value ends where it would have ended from the first digit |
| Reader.Reader.ParseFraction | lib/rapidjson/include/rapidjson/reader.h:864-911 | The dot needs a digit behind it |
| Reader.Reader.ParseExponent | lib/rapidjson/include/rapidjson/reader.h:913-943 | The exponent needs a digit, and a positive one above 308 is an error |
| Reader.Reader.ParseArray | lib/rapidjson/include/rapidjson/reader.h:523-555 | An array is read as ParseArray of the specification reads it |
| Reader.Reader.ParseElements | lib/rapidjson/include/rapidjson/reader.h:539-554 | The element loop computes the one of the specification, count included |
| Reader.Reader.ParseMember | lib/rapidjson/include/rapidjson/reader.h:490-504 | One name, colon and value |
| Reader.Reader.ParseObject | lib/rapidjson/include/rapidjson/reader.h:473-519 | An object is read as ParseObject of the specification reads it |
| Reader.Reader.ParseMembers | lib/rapidjson/include/rapidjson/reader.h:489-518 | The member loop computes the one of the specification, count included |
| Reader.Reader.ParseDelimiter | lib/rapidjson/include/rapidjson/reader.h:506-517 | Comma, closing byte or the error, and how far whitespace is skipped |
| Reader.Reader.ParseValue | lib/rapidjson/include/rapidjson/reader.h:979-989 | Dispatches on the first byte |
| Reader.Reader.Parse | lib/rapidjson/include/rapidjson/reader.h:399-428 | The whole recursive parse: cursor, events and error are those of the specification |
| Reader.Reader.Transit | lib/rapidjson/include/rapidjson/reader.h:1233-1372 | On the flat stack of SizeType cells, a transition is the one of the specification |
| Reader.Reader.Open | lib/rapidjson/include/rapidjson/reader.h:1245-1270 | Pushes the state to return to and a zero count, then calls the handler, then takes the bracket |
| Reader.Reader.Delimit | lib/rapidjson/include/rapidjson/reader.h:1303-1308 | Counts one more entry on top of the stack |
| Reader.Reader.Close | lib/rapidjson/include/rapidjson/reader.h:1310-1358 | Pops count and state, counts the last entry when there is one, and calls the handler with the total |
| Reader.Reader.HandleError | lib/rapidjson/include/rapidjson/reader.h:1375-1391 | An error that is set stays; otherwise the state decides |
| Reader.Reader.IterativeParse | lib/rapidjson/include/rapidjson/reader.h:1394-1424 | The loop computes the iterative parse; at its head the flat stack holds two cells per open container |
| EventTrees.AcceptedIsTree | lib/rapidjson/include/rapidjson/reader.h:399-428 | Whatever is accepted is a text of the grammar without exceptions (with the flag for stopping: begins with one), and the events are those of the tree that it stands for up to the integer class; every count is the number of entries mod 2^32, and every integer lies in -2^63 to 2^64-1 |
| EventTrees.ValueTree | lib/rapidjson/include/rapidjson/reader.h:979-989 | Every successful ParseValue has read one value of the grammar, a number as far as the text goes on with it, without an exception, and adds the events of the tree that it stands for |
| EventTrees.ArrayLoopTree | lib/rapidjson/include/rapidjson/reader.h:539-554 | The element loop has read elements between commas up to a bracket, and adds their events and one closing event with their number |
| EventTrees.ObjectLoopTree | lib/rapidjson/include/rapidjson/reader.h:489-518 | The member loop has read members between commas up to a brace, and adds keys, values and one closing event with the number of pairs |
| GrammarComplete.ParseIsGrammar | lib/rapidjson/include/rapidjson/reader.h:399-428 | With and without the flag for stopping, both parsers accept exactly the texts of the plain grammar of section 2 of RFC 4627 (scalars as roots) that hold none of the exceptions named above, and deliver the events of the tree that the text stands for |
| GrammarComplete.TextIsAccepted | lib/rapidjson/include/rapidjson/reader.h:399-428 | Every text of the grammar without exceptions is accepted, with the events of its tree |
| GrammarComplete.LoneLeadRefused | lib/rapidjson/include/rapidjson/reader.h:697-704 | The text of one escaped lead surrogate is one of the RFC and is refused |
| GrammarComplete.LargeExponentRefused | lib/rapidjson/include/rapidjson/reader.h:928-938 | The text 1e309 is one of the RFC and is refused |
| GrammarComplete.ManyDigitsRefused | lib/rapidjson/include/rapidjson/reader.h:855-862 | The text of 10^309 in digits is one of the RFC and is refused |
| GrammarComplete.ReadValue | lib/rapidjson/include/rapidjson/reader.h:979-989 | A value of the grammar without exceptions, a number as long as the text allows, is read to its end, with the events of its tree |
| GrammarComplete.ReadValues | lib/rapidjson/include/rapidjson/reader.h:539-554 | The element loop on elements between commas, with whitespace anywhere around them |
| GrammarComplete.ReadMembers | lib/rapidjson/include/rapidjson/reader.h:489-518 | The member loop on members between commas, with whitespace anywhere around names, colons and values |
| GrammarTokens.HexIs | lib/rapidjson/include/rapidjson/reader.h:598-616 | ParseHex4 succeeds exactly on four hexadecimal digits, with their value |
| GrammarTokens.ReadChars | lib/rapidjson/include/rapidjson/reader.h:672-728 | A string of the grammar without exceptions is read as the bytes that its characters and escapes stand for |
| GrammarTokens.TakenChars | lib/rapidjson/include/rapidjson/reader.h:672-728 | A string that is read without an error is one of the grammar, stands for the bytes read, and holds no exception |
| GrammarTokens.ReadNumber | lib/rapidjson/include/rapidjson/reader.h:776-975 | A number of the grammar that is as long as the text allows and not too large is read to its end and reported with its value |
| GrammarTokens.TakenNumber | lib/rapidjson/include/rapidjson/reader.h:776-975 | What is read as a number is one of the grammar, as long as the text allows, and not too large |
| GrammarTokens.NumberTaken | lib/rapidjson/include/rapidjson/reader.h:776-975 | A number is read if and only if the longest run that could be one has the parts of a number and is not too large |
| GrammarTokens.BigDigitsIs | lib/rapidjson/include/rapidjson/reader.h:855-862 | The digits of a large number are all taken exactly when those before the last stay below the limit |
| GrammarTokens.ExponentIs | lib/rapidjson/include/rapidjson/reader.h:928-938 | The digits of an exponent are all taken exactly when it is negative or at most 308 |
| RoundTrip.ParseUndoesPrint | lib/rapidjson/include/rapidjson/writer.h:250-341 | Parsing the text that the writer prints for a tree of null, bool, 64-bit integers, arbitrary byte strings, arrays and objects delivers the events of that tree and ends at the end of the text, for both targets |
| RoundTripExact.ReadsBackIff | lib/rapidjson/include/rapidjson/reader.h:720-726 | The printed text of such a tree is read back if and only if the target escapes what is not ASCII, or the reader does not validate, or every string of the tree is well-formed; otherwise it is refused |
| RoundTrip.ReadValue | lib/rapidjson/include/rapidjson/writer.h:114-174 | The same for a value inside a longer text, with the cursor left right behind it |
| RoundTrip.ReadUnits | lib/rapidjson/include/rapidjson/writer.h:266-313 | ParseStringToStream undoes WriteString byte for byte, embedded zeros included |
| RoundTrip.ReadHex | lib/rapidjson/include/rapidjson/reader.h:598-616 | ParseHex4 reads what the writer put as four hexadecimal digits |
| RoundTrip.ReadSurrogates | lib/rapidjson/include/rapidjson/reader.h:698-707 | The arithmetic of both sides of a surrogate pair meets in the same code point |
| RoundTrip.ReadNumber | lib/rapidjson/include/rapidjson/reader.h:776-975 | The decimal text of every integer from -2^63 to 2^64-1 is read as that integer, in the narrowest class |
| RoundTrip.LargeIsDouble | lib/rapidjson/include/rapidjson/reader.h:855-862 | An integer text outside that range is never reported as an integer |
| RoundTrip.AsciiText | lib/rapidjson/include/rapidjson/writer.h:265-300 | With an ASCII target every byte of a string is printed below 0x80 |
| RoundTrip.AsciiRoundTrip | lib/rapidjson/include/rapidjson/writer.h:265-313 | Every well-formed UTF-8 string goes through an ASCII target and comes back identical |
| WriterSpec.WritableIs | lib/rapidjson/include/rapidjson/writer.h:250-316 | WriteString succeeds on every byte string for a UTF-8 target, and on exactly the well-formed ones for an ASCII target |
| WriterSpec.WriterPrintsTree | lib/rapidjson/include/rapidjson/writer.h:114-174 | The level stack, fed with the events of a tree, has printed exactly the text of that tree and is complete |
| WriterSpec.PutValue | lib/rapidjson/include/rapidjson/writer.h:323-341 | The same for a value anywhere: the separator that is due, then the text of the tree, and one more value on the level |
| WriterSpec.PutMembers | lib/rapidjson/include/rapidjson/writer.h:140-157 | Keys and values of an object get commas and colons by the parity of the level |
| WriterSpec.OpenThenClose | lib/rapidjson/include/rapidjson/writer.h:140-174 | Opening and closing a container leaves the level stack as one value would |
| Writer.Writer.Prefix | lib/rapidjson/include/rapidjson/writer.h:323-341 | The separator and the value count, under the assertions of the original |
| Writer.Writer.WriteString | lib/rapidjson/include/rapidjson/writer.h:250-316 | The loop prints the text of the string, and fails exactly where an ASCII target meets bytes that do not decode |
| Writer.Writer.PutCodePoint | lib/rapidjson/include/rapidjson/writer.h:273-296 | One escape, or a surrogate pair of escapes |
| Writer.Writer.String | lib/rapidjson/include/rapidjson/writer.h:128-132 | One string event on the level stack |
| Writer.Writer.Number | lib/rapidjson/include/rapidjson/writer.h:116-119 | One integer event: the decimal text in whatever class |
| Writer.Writer.StartArray | lib/rapidjson/include/rapidjson/writer.h:159-163 | Opens a level |
| Writer.Writer.EndObject | lib/rapidjson/include/rapidjson/writer.h:148-157 | Closes a level |
| DocumentSpec.BuildsTree | lib/rapidjson/include/rapidjson/document.h:1872-1904 | The events of any tree leave the stack as before plus that one tree |
| DocumentSpec.BaseUntouched | lib/rapidjson/include/rapidjson/document.h:1892-1904 | Pops never reach below the starting height: what runs on a stack runs the same above any base |
| DocumentSpec.BuildsMembers | lib/rapidjson/include/rapidjson/document.h:1890-1896 | Keys and values become members, in order |
| DocumentSpec.ClassIgnored | lib/rapidjson/include/rapidjson/document.h:1874-1877 | The stack machine does not depend on the class an integer comes in |
| DocumentSpec.OneRoot | lib/rapidjson/include/rapidjson/document.h:1736-1746 | After an accepted text exactly one value is on the stack, and the assertions of ParseStream hold, if and only if no container of the tree has 2^32 entries or more; so for every text shorter than that |
| DocumentSpec.TreeHeight | lib/rapidjson/include/rapidjson/document.h:1892-1904 | The events of a tree leave at least one value more, and more than one if some container has 2^32 entries or more |
| DocumentSpec.OneValueIff | lib/rapidjson/include/rapidjson/document.h:1872-1904 | The events of a tree leave one single value if and only if SizeType counts all its containers, and then that tree |
| DocumentSpec.AcceptReplaysParse | lib/rapidjson/include/rapidjson/document.h:1433-1473 | Accept on a parsed document replays the events of the parse, up to the integer class |
| DocumentSpec.EventsPlain | lib/rapidjson/include/rapidjson/document.h:1462-1467 | Whatever class is chosen for integers, the events of a tree are the same otherwise |
| DocumentSpec.DocumentReadsBack | lib/rapidjson/include/rapidjson/document.h:1736-1746 | Writing a tree and parsing the text gives the same tree |
| DocumentSpec.DocumentIsMeaning | lib/rapidjson/include/rapidjson/document.h:1736-1746 | With every flag setting: a text stands for a tree with countable containers, and holds no exception, if and only if it is accepted and what is built is that one tree; so no text stands for two such trees |
| DocumentSpec.PrintedMeans | lib/rapidjson/include/rapidjson/document.h:1736-1746 | What the writer prints for a tree stands for that tree by the grammar, and holds no exception |
| DocumentSpec.DeepCopyIsEqual | lib/rapidjson/include/rapidjson/document.h:1939-1961 | Replaying a tree into a new document gives an equal tree |
| DocumentSpec.FlagsAreRanges | lib/rapidjson/include/rapidjson/document.h:499-535 | Through whichever of the four constructors an integer comes, its flags say exactly which of the four types hold the value |
| DocumentSpec.ReplayIsNarrowest | lib/rapidjson/include/rapidjson/document.h:1462-1467 | Accept replays an integer in the first class that holds it |
| Document.Document.Handle | lib/rapidjson/include/rapidjson/document.h:1872-1904 | A handler call on the object stack is the one of the stack machine |
| Document.Document.EndObject | lib/rapidjson/include/rapidjson/document.h:1892-1896 | Pops the pairs and overwrites the value below with the object |
| Document.Document.EndArray | lib/rapidjson/include/rapidjson/document.h:1900-1904 | Pops the elements and overwrites the value below with the array |
| Document.Document.HandleAll | lib/rapidjson/include/rapidjson/document.h:1872-1904 | A whole event log |
| Document.Document.ParseStream | lib/rapidjson/include/rapidjson/document.h:1736-1746 | Under its assertions, the root is the parsed tree, or null after an error, and the stack is empty |
| Document.Accept | lib/rapidjson/include/rapidjson/document.h:1433-1473 | Accept with a writer as handler prints the text of the tree, and stops exactly when a string cannot be written |
| Document.Document.Replay | lib/rapidjson/include/rapidjson/document.h:1433-1473 | Accept with a document as handler makes the handler calls that the events of the tree name, and leaves that tree on its stack |
| Document.DeepCopy | lib/rapidjson/include/rapidjson/document.h:1939-1961 | The deep-copy constructor: containers through a new document, everything else directly; the copy equals the value |
| AllocatorSpec.StepSafe | lib/rapidjson/include/rapidjson/allocators.h:168-201 | A call of Malloc or Realloc keeps all live blocks inside the used parts of their chunks and apart, and sizes within capacities, if and only if it asks for at most 0xFFFFFFFC bytes |
| AllocatorSpec.StepKeeps | lib/rapidjson/include/rapidjson/allocators.h:179-201 | Such a call keeps the contents of every block, and a write those of every other block; a resized block keeps its old contents as a prefix, grown in place or moved |
| AllocatorSpec.RunSafe | lib/rapidjson/include/rapidjson/allocators.h:168-201 | The same safety over every run of calls and of writes by callers |
| AllocatorSpec.RunKeeps | lib/rapidjson/include/rapidjson/allocators.h:168-201 | Over every run a block that is neither resized nor written to keeps its place and its contents |
| AllocatorSpec.RunHolds | lib/rapidjson/include/rapidjson/allocators.h:168-201 | Over every run of calls and writes each block holds the bytes last written into it, as far as it was not cut since, however often it was resized or moved and whatever was written elsewhere |
| AllocatorSpec.CopyFitsIf | lib/rapidjson/include/rapidjson/allocators.h:197-200 | The copy of a moved block lies inside the memory, apart from the block, whenever the block fits into what rounding up reserves |
| AllocatorSpec.AlignIsMask | lib/rapidjson/include/rapidjson/rapidjson.h:219 | The mask on 64-bit words is the arithmetic that Align stands for |
| AllocatorSpec.AlignCovers | lib/rapidjson/include/rapidjson/rapidjson.h:219 | RAPIDJSON_ALIGN rounds up if and only if the size is at most 0xFFFFFFFC: the mask has 32 bits |
| AllocatorSpec.OversizeOverlaps | lib/rapidjson/include/rapidjson/allocators.h:168-176 | A larger size gets too few bytes: the next block of the same chunk starts inside it |
| AllocatorSpec.MallocGives | lib/rapidjson/include/rapidjson/allocators.h:168-176 | Malloc hands out the bytes between the old and the new top of the head chunk, apart from every live block |
| AllocatorSpec.GrowSafe | lib/rapidjson/include/rapidjson/allocators.h:187-195 | Growing the last block in place takes only free bytes of the head chunk; the pointer test cannot be met by a block of another chunk |
| AllocatorSpec.StartsSafe | lib/rapidjson/include/rapidjson/allocators.h:104-128 | Both constructors start safe |
| Allocator.MemoryPoolAllocator.AddChunk | lib/rapidjson/include/rapidjson/allocators.h:215-223 | The new chunk becomes the head of the linked list, empty |
| Allocator.MemoryPoolAllocator.Malloc | lib/rapidjson/include/rapidjson/allocators.h:168-176 | On the linked list, Malloc is the one of the specification |
| Allocator.MemoryPoolAllocator.Realloc | lib/rapidjson/include/rapidjson/allocators.h:179-201 | On the linked list and the memory, Realloc is the one of the specification |
| Allocator.MemoryPoolAllocator.Size | lib/rapidjson/include/rapidjson/allocators.h:160-165 | The sum of the sizes |
| Allocator.MemoryPoolAllocator.Capacity | lib/rapidjson/include/rapidjson/allocators.h:150-155 | The sum of the capacities |
| Allocator.MemoryPoolAllocator.Clear | lib/rapidjson/include/rapidjson/allocators.h:139-145 | Gives back every chunk but the user buffer, head first |
| Allocator.SizeWithinCapacity | lib/rapidjson/include/rapidjson/allocators.h:150-165 | Size never exceeds Capacity |
| Encodings.ValidateIsGrammar | lib/rapidjson/include/rapidjson/encodings.h:158-181 | One Validate accepts exactly the UTF8-chars of section 4 of RFC 3629 and reads exactly one |
| Encodings.ValidateAllIsGrammar | lib/rapidjson/include/rapidjson/encodings.h:158-181 | Repeated Validate accepts exactly the well-formed texts |
| Encodings.DecodeAgreesWithValidate | lib/rapidjson/include/rapidjson/encodings.h:129-181 | Decode and Validate accept the same bytes and read equally far |
| Encodings.DecodeIsShortest | lib/rapidjson/include/rapidjson/encodings.h:107-155 | Decode succeeds only on the shortest encoding of a non-surrogate code point: Encode gives back the bytes that were read |
| Encodings.DecodeUndoesEncode | lib/rapidjson/include/rapidjson/encodings.h:107-155 | Decode reads back every code point that Encode wrote |
| Encodings.Decode16UndoesEncode16 | lib/rapidjson/include/rapidjson/encodings.h:253-283 | The same for UTF-16 |
| Encodings.Decode16IsScalar | lib/rapidjson/include/rapidjson/encodings.h:253-283 | A decoded UTF-16 code point is no surrogate, and encodes to the units read |
| Encodings.To16Succeeds | lib/rapidjson/include/rapidjson/encodings.h:591-607 | Transcoding to UTF-16 succeeds on exactly the well-formed UTF-8 texts |
| Encodings.TranscodeRoundTrip | lib/rapidjson/include/rapidjson/encodings.h:591-607 | UTF-8 to UTF-16 and back is the identity on every well-formed text |
| EncodingStreams.Utf8Encode | lib/rapidjson/include/rapidjson/encodings.h:107-126 | Puts the encoding of the code point |
| EncodingStreams.Utf8Decode | lib/rapidjson/include/rapidjson/encodings.h:129-155 | Result, code point and cursor are those of Decode8, every tail read whatever the earlier ones were |
| EncodingStreams.Utf8Validate | lib/rapidjson/include/rapidjson/encodings.h:158-181 | Copies exactly what it reads, with the verdict of Validate8 |
| EncodingStreams.Utf16Encode | lib/rapidjson/include/rapidjson/encodings.h:253-265 | Puts one unit or a surrogate pair |
| EncodingStreams.Utf16Decode | lib/rapidjson/include/rapidjson/encodings.h:268-283 | Result, code point and cursor are those of Decode16 |
| EncodingStreams.TranscodeTo16 | lib/rapidjson/include/rapidjson/encodings.h:594-600 | One call of Transcode; the assertions of UTF16::Encode never fail |
| EncodingStreams.ToUtf16 | lib/rapidjson/include/rapidjson/encodings.h:594-600 | Transcode repeated to the end of the text |
| EncodingStreams.ToUtf8 | lib/rapidjson/include/rapidjson/encodings.h:594-600 | The way back |
| Utf8Validator.AutomatonIsGrammar | lib/websocketpp/websocketpp/utf8_validator.hpp:45-78 | The table automaton ends in accept exactly on the texts of the grammar of RFC 3629 |
| Utf8Validator.ValidatorsAgree | lib/websocketpp/websocketpp/utf8_validator.hpp:143-149 | The two UTF-8 validators of the repository accept the same texts |
| Utf8Validator.RejectAbsorbs | lib/websocketpp/websocketpp/utf8_validator.hpp:45-60 | The reject state is never left |
| Utf8Validator.CodePointIsDecode | lib/websocketpp/websocketpp/utf8_validator.hpp:69-78 | On each character the code point register ends with the code point that UTF8::Decode computes |
| Utf8Validator.Validator.Consume | lib/websocketpp/websocketpp/utf8_validator.hpp:91-96 | One byte |
| Utf8Validator.Validator.Decode | lib/websocketpp/websocketpp/utf8_validator.hpp:105-118 | A chunk: state and register as after the whole chunk, though the loop stops at the first rejected byte |
| Utf8Validator.ValidateChunks | lib/websocketpp/websocketpp/utf8_validator.hpp:105-126 | However a text is cut into chunks, the validator ends complete exactly when the text is well-formed |
| Utf8Validator.Validate | lib/websocketpp/websocketpp/utf8_validator.hpp:143-149 | Accepts exactly the well-formed texts |
| MessageSpec.AcceptAttaches | src/internal/sio_packet.cpp:20-136 | accept_message attaches exactly the binary leaves of a message, in order, each behind the frame byte |
| MessageSpec.FromJsonUndoesAccept | src/internal/sio_packet.cpp:138-195 | from_json gives back the message that accept_message encoded, with its attachments found among all attachments, if and only if every "_placeholder" key stands for false |
| MessageSpec.MarkedObjectIsLost | src/internal/sio_packet.cpp:161-173 | A message with a true "_placeholder" that does not come back |
| Packets.AcceptMessage | src/internal/sio_packet.cpp:88-136 | On the shared vector of buffers: the JSON value, and the buffers with the attachments pushed |
| Packets.AcceptArray | src/internal/sio_packet.cpp:66-74 | The loop over the items |
| Packets.AcceptObject | src/internal/sio_packet.cpp:76-86 | The loop over the map |
| Packets.ReadMessage | src/internal/sio_packet.cpp:138-195 | from_json, or nothing where an assertion of the JSON library fails |
| Packets.ReadObject | src/internal/sio_packet.cpp:161-185 | The loop that puts members into the map |
| Packets.Packet.Parse | src/internal/sio_packet.cpp:273-346 | Outcome and every field are those of the specification |
| Packets.Packet.ParseBuffer | src/internal/sio_packet.cpp:253-271 | Takes one attachment; behind the last one the message is built |
| Packets.Packet.Accept | src/internal/sio_packet.cpp:348-399 | The text frame, the attachments, and the type fixed by whether there are any |
| Packets.PacketManager.Encode | src/internal/sio_packet.cpp:443-473 | Calls the callback with the text frame and then each attachment, only the first as text |
| Packets.PacketManager.PutPayload | src/internal/sio_packet.cpp:475-516 | Partial packet and dispatched packets are those of the specification; a packet is handed on exactly when the outcome says so |
| Packets.PacketManager.Reset | src/internal/sio_packet.cpp:438-441 | Forgets the partial packet |
| PacketSpec.Parse | src/internal/sio_packet.cpp:273-346 | A packet that waits for attachments has kept its JSON text |
| PacketSpec.FindFirst | src/internal/sio_packet.cpp:296 | The first position whose byte is in the set, or the length |
| WireRoundTrip.AcceptText | src/internal/sio_packet.cpp:348-399 | The text frame is header and JSON text, typed binary exactly when the message has attachments |
| WireRoundTrip.ParsePlain | src/internal/sio_packet.cpp:273-346 | parse reads type, namespace, id and message out of a text frame without attachments |
| WireRoundTrip.ParseAnnouncing | src/internal/sio_packet.cpp:289-337 | parse reads the number of attachments and keeps the JSON text |
| WireRoundTrip.TextUndoesAccept | src/internal/sio_packet.cpp:253-271 | JSON text and attachments give the message back if and only if it is unmarked |
| WireRoundTrip.EncodeThenPut | src/internal/sio_packet.cpp:443-516 | Feeding the frames of one event or ack to put_payload delivers exactly that packet, with namespace, id and message tree, typed binary exactly when the tree holds a binary leaf, if and only if the message is unmarked |
| WireRoundTrip.WireRoundTrip | src/internal/sio_packet.cpp:443-516 | Every list of such messages arrives complete and in order, and leaves nothing pending |
| Reassembly.PayloadsDispatch | src/internal/sio_packet.cpp:475-516 | Over every sequence of payloads: an assertion fails if and only if it does at some position; otherwise position k dispatches exactly a packet parsed at once, or the packet of the last announcing header before k if k is the last of the binary payloads that it waits for, with these in order of arrival |
| Reassembly.CompletedIff | src/internal/sio_packet.cpp:475-516 | A partial packet is completed if and only if as many binary payloads as it waits for come before the next announcing header |
| Reassembly.OnceOnly | src/internal/sio_packet.cpp:475-516 | No partial packet is completed at two positions |
| Reassembly.PutStep | src/internal/sio_packet.cpp:475-516 | One payload moves the manager from what its position says to what the next says |
| WireRoundTrip.FirstIsLost | src/internal/sio_packet.cpp:475-490 | When all frames of a second packet with attachments come before the attachments of the first, the second is delivered, the first never |
| WireRoundTrip.AttachmentsMixedUp | src/internal/sio_packet.cpp:475-490 | When two headers with the same JSON text come before their attachments, the second packet is delivered with the attachments of the first |
| WireRoundTrip.OneIsLost | src/internal/sio_packet.cpp:475-490 | Both of these at two concrete packets |
| ManagerSpec.StrayBinariesIgnored | src/internal/sio_packet.cpp:492-502 | Without a partial packet binary payloads dispatch nothing |
| ManagerSpec.AbortsOnLast | src/internal/sio_packet.cpp:259-266 | The last attachment of a text that fails an assertion |
| ManagerSpec.ZeroAnnounced | src/internal/sio_packet.cpp:253-271 | A header that announces no attachment still waits for a binary payload, and is then dispatched without a message |
| WireRoundTrip.ZeroHeaderWaits | src/internal/sio_packet.cpp:289-337 | The text 450-[] leaves such a packet waiting, and a binary payload then dispatches it without its message |
| ManagerSpec.PutPayload | src/internal/sio_packet.cpp:475-516 | A partial packet always has the text that its attachments belong to |
| SocketThreads.InOnePlace | src/sio_socket.cpp:300-365 | Under every interleaving of any number of threads each emitted packet is in exactly one place: sent once, queued, dropped, or held by one call |
| SocketThreads.StepCounts | src/sio_socket.cpp:491-515 | No step loses or copies a packet |
| SocketThreads.RunClientSafe | src/sio_socket.cpp:491-515 | Under every interleaving m_client is set in every state in which a call stands between its test of m_client and its last possible use, if and only if each on_close clears it when there is no such call |
| SocketThreads.StepClientSafe | src/sio_socket.cpp:327-347 | The same for each step |
| SocketThreads.SentThroughNothing | src/sio_socket.cpp:503-507 | Without that waiting, a run of two threads sends a packet through a client that is gone |
| SocketClient.WaitingIsEnough | src/sio_socket.cpp:300-365 | If each on_close waits for such calls, no call goes through an m_client that is gone, in any run |
| SocketClient.WaitingIsNotNeeded | src/sio_socket.cpp:491-515 | A run in which on_close does not wait, and after which no call can ever go through m_client |
| SocketClient.GoneIffDoomed | src/sio_socket.cpp:300-365 | In every state that any number of threads can come to: some way of going on sends or reports through an m_client that is gone if and only if a second thread is not about to clear it, or, when it is gone, a call is on its way to it and is not turned back by m_connected and the queue |
| SocketClient.GoneIffManyThreads | src/sio_socket.cpp:300-365 | For every number of threads: some run goes through an m_client that is gone if and only if there is more than one thread |
| SocketThreads.SentInOrder | src/sio_socket.cpp:300-325 | In every run of one thread, with the open listener emitting inside on_connected, packets go out in emit order; while the client is there none is skipped, and between calls a connected socket has sent everything |
| SocketThreads.RunOneThread | src/sio_socket.cpp:491-515 | The invariant of a single thread, at every lock, read and send |
| SocketThreads.OrderIffOneThread | src/sio_socket.cpp:491-515 | For every number of threads: packets are sent in the order of emission in every run if and only if there is at most one thread |
| SocketThreads.SendsAllIffOneThread | src/sio_socket.cpp:491-515 | For every number of threads: an idle, connected socket has sent everything emitted in every run if and only if there is at most one thread |
| SocketThreads.RunBeside | src/sio_socket.cpp:491-515 | A run stays a run beside any number of idle threads |
| SocketThreads.OutOfOrder | src/sio_socket.cpp:496-508 | A run of two threads in which packet 1 overtakes packet 0 |
| SocketThreads.QueuedWhileConnected | src/sio_socket.cpp:494-514 | A run of two threads that leaves a packet queued on a connected, idle socket |
| Socket.Socket.SendPacket | src/sio_socket.cpp:491-515 | A connected socket sends the queue and then the packet; otherwise the packet is queued |
| Socket.Socket.Drain | src/sio_socket.cpp:312-323 | The whole queue is sent, first in first out |
| Socket.Socket.Emit | src/sio_socket.cpp:248-265 | The packet with its id, and the callback registered under that id |
| Socket.Socket.OnConnected | src/sio_socket.cpp:300-325 | What was queued goes out first, then what the open listener emitted |
| Socket.Socket.OnDisconnect | src/sio_socket.cpp:354-365 | Clears flag and queue when connected |
| Socket.Socket.OnClose | src/sio_socket.cpp:327-347 | Clears client, flag and queue |
| Socket.Socket.OnSocketioAck | src/sio_socket.cpp:458-471 | Takes out the callback under the id and calls it |
| Socket.IdIsWritten | src/sio_socket.cpp:250-264 | An id is written into the packet, and so can be acknowledged, exactly while it is below 2^31 |
| Acks.CalledOnce | src/sio_socket.cpp:458-471 | In every run of a socket beside others each callback is called at most once; one not called yet is waiting if and only if no later callback of the socket has its id, so at least until 2^32 ids have been handed out |
| Acks.RegisterInv | src/sio_socket.cpp:253-258 | Registering replaces a waiting callback exactly when it has the same id |
| Acks.ElsewhereInv | src/sio_socket.cpp:253 | An id that another socket takes changes nothing but the counter |
| Acks.AnswerInv | src/sio_socket.cpp:458-471 | Answering takes out one callback and leaves the others |
| FrameMask.MaskChunks | lib/websocketpp/websocketpp/frame.hpp:768-859 | For both word sizes and byte orders, in place or into another buffer, every split of a message into chunks and every choice of function per chunk gives the bytes of one byte_mask over the whole message |
| FrameMask.MaskTwice | lib/websocketpp/websocketpp/frame.hpp:645-655 | Masking twice is the identity |
| FrameMask.ByteMask | lib/websocketpp/websocketpp/frame.hpp:645-655 | The masked bytes of section 5.3 of RFC 6455, in place or into another buffer, and nothing else changed |
| FrameMask.WordMaskExact | lib/websocketpp/websocketpp/frame.hpp:702-717 | The bytes of byte_mask |
| FrameMask.WordMaskCirc | lib/websocketpp/websocketpp/frame.hpp:768-789 | The bytes of byte_mask, and the key with which the next chunk goes on |
| FrameMask.ByteMaskCirc | lib/websocketpp/websocketpp/frame.hpp:830-841 | The same, byte by byte, whatever half of the prepared key the truncation keeps |
| FrameMask.MaskWord | lib/websocketpp/websocketpp/frame.hpp:710-712 | One word xor-ed in memory is its bytes masked |
| FrameMask.PrepareIsPrepared | lib/websocketpp/websocketpp/frame.hpp:595-604 | A prepared key shows the four key bytes over and over in memory |
| FrameMask.ShiftByte | lib/websocketpp/websocketpp/frame.hpp:612-623 | A circular shift makes a word start that many bytes later in memory, in either byte order |
| FrameMask.ShiftRotates | lib/websocketpp/websocketpp/frame.hpp:612-623 | Shifting a prepared key rotates the key, and keeps it prepared |
| FrameMask.LowKeyIs | lib/websocketpp/websocketpp/frame.hpp:833-834 | The truncated prepared key is the key |
| FrameHeader.HeaderReadsBack | lib/websocketpp/websocketpp/frame.hpp:489-585 | Reading prepare_header back gives the same flags, opcode, size and key; the length equals get_header_len and is at most 14; no header with a shorter length field reads as that size, whatever its bytes are |
| FrameHeader.BasicReadsBack | lib/websocketpp/websocketpp/frame.hpp:194-228 | The two bytes of the basic header give back flags, opcode, mask bit and size code |
| FrameHeader.HtonllIsNetwork | lib/websocketpp/websocketpp/common/network.hpp:66-85 | On either machine the converted word has the bytes of the size in memory, most significant first |
| FrameHeader.NtohllReads | lib/websocketpp/websocketpp/common/network.hpp:98-100 | Converting back gives the size |
| FrameHeader.NtohsReads | lib/websocketpp/websocketpp/frame.hpp:540-544 | The 16-bit form is read back |
| FrameHeader.BasicHeader.constructor | lib/websocketpp/websocketpp/frame.hpp:194-228 | Sets exactly the bits of the arguments |
| FrameHeader.BasicHeader.SetFin | lib/websocketpp/websocketpp/frame.hpp:330-332 | Changes the fin flag and nothing else that is read from the byte |
| FrameHeader.BasicHeader.SetMasked | lib/websocketpp/websocketpp/frame.hpp:411-413 | Changes the mask bit and keeps the size |
| FrameHeader.ExtendedHeader.WithKey | lib/websocketpp/websocketpp/frame.hpp:246-256 | Size, key, zeros |
| FrameHeader.ExtendedHeader.CopyPayload | lib/websocketpp/websocketpp/frame.hpp:260-274 | The size in network order in 0, 2 or 8 bytes |
| FrameHeader.PrepareHeader | lib/websocketpp/websocketpp/frame.hpp:489-502 | Both structures in one string of the right length |
| Md5.HashChunks | lib/websocketpp/websocketpp/common/md5.hpp:349-412 | For any block function, however a message is split over md5_append calls, md5_finish gives the fold of the block function over the padded message |
| Md5.Md5State.Append | lib/websocketpp/websocketpp/common/md5.hpp:357-391 | Keeps the invariant: whole blocks processed, the rest in the buffer, the bit count exact mod 2^64 |
| Md5.Md5State.AppendBytes | lib/websocketpp/websocketpp/common/md5.hpp:372-390 | The partial block, the full blocks and the rest, in this order |
| Md5.Md5State.Finish | lib/websocketpp/websocketpp/common/md5.hpp:393-412 | Padding and length appended, then the sixteen digest bytes |
| Md5.CountsAdd | lib/websocketpp/websocketpp/common/md5.hpp:366-370 | The two count words with their carry hold 8 times the byte total mod 2^64 |
| Md5.LowWordIs | lib/websocketpp/websocketpp/common/md5.hpp:360-407 | The low count word alone gives the offset in the block and the padding length |
| Md5.PaddedIsBlocks | lib/websocketpp/websocketpp/common/md5.hpp:406-409 | The padded message is a whole number of blocks, with 1 to 64 bytes of padding |
| Md5.FoldConcat | lib/websocketpp/websocketpp/common/md5.hpp:384-386 | Processing block by block is independent of where whole blocks are cut |
| Base64.DecodeUndoesEncode | lib/websocketpp/websocketpp/base64/base64.hpp:66-174 | Decoding the encoded text gives the bytes back, for every byte string; the text has 4 * ceil(n / 3) characters |
| Base64.ThreeOfFour | lib/websocketpp/websocketpp/base64/base64.hpp:157-171 | The bytes put out for a last group do not depend on the entries filled in for missing characters, whatever they are |
| Base64.IsBase64Finds | lib/websocketpp/websocketpp/base64/base64.hpp:53-58 | is_base64 accepts exactly the characters that the table contains |
| Base64.Encode | lib/websocketpp/websocketpp/base64/base64.hpp:66-112 | The loop computes the encoding of section 4 of RFC 4648 |
| Base64.Decode | lib/websocketpp/websocketpp/base64/base64.hpp:131-174 | The loop decodes the characters up to the first that is not in the alphabet |
| Base64.SextetsOfBytes | lib/websocketpp/websocketpp/base64/base64.hpp:76-81 | The masks and shifts cut 24 bits into four sextets |
| Base64.BytesOfSextets | lib/websocketpp/websocketpp/base64/base64.hpp:146-148 | The masks and shifts join four sextets into three bytes |

## Left out

- RoundTrip.ParseUndoesPrint: trees with doubles, because dtoa and strtod are not modelled; a double is kept as its text.
- Reader.Reader.ParseBigDigits: keeps the value of a double exactly where the original rounds, so at the very limit of 1.7976931348623157e307 the original may take one digit more or less.
- Packets.PacketManager.PutPayload: says nothing about the manager after a failed assertion of the JSON library, which ends the program.
- Packets.Packet.Parse: lexical_cast is modelled on decimal digits with an optional sign.
- Reader.Reader.ParseExponent: keeps a negative exponent exactly, where the int of the original overflows after some ten digits.
- Writer.Writer.String: says nothing about what is left behind where an ASCII target refuses a string.
- WireRoundTrip.EncodeThenPut: messages with an array root, no doubles and no empty pointers; a namespace that starts with a slash and has no comma, since the text form carries no other.
- SocketThreads.RunClientSafe: each read or write of a flag is one step; the data races of the original are not modelled beyond that.
- Allocator.MemoryPoolAllocator.Realloc: asks that the copy of a moved block lies inside the memory, as memcpy does; it may not for sizes above 0xFFFFFFFC.
- EncodingStreams.Utf8Decode: the code point that is left behind by a byte that cannot lead is 0 here; the original leaves a value that no caller reads.
- Doubles, and with them fraction and exponent values, dtoa, strtod and full precision.
- In-situ parsing, SIMD whitespace skipping, file streams, byte order marks and UTF-32.
- String lengths beyond 32 bits, short-string and union layouts, and the memory behind a text's terminating zero, which reads as zero.
- The reader's use of one stack for both strings and states: strings are built in a local value.
- The handler log is handed to the document at the end of a parse; its handler always answers true, so the order of calls is the same.
- Objects of message trees are lists sorted by key in the order of std::map, without its node structure.
- Callbacks, timers, the network and the listeners appear as logs or as parameters; what happens behind m_client->send is not modelled.
- socket::impl: event binding, on_message_packet's dispatch, error listener and timeouts.
- The rounds of md5_process, and md5_hash_hex.
- HTTP handshake, TLS, asio, endpoint and connection classes, logging, and the programs in examples and tutorials.
