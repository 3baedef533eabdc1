# Verified models of the logger's core algorithms

This project models the parts of the tracing toolkit whose correctness rests on an argument rather
than on a glance at the code, and proves that argument. Each module stands for one source file or
one reference the code has to agree with. Code that changes memory in place is modelled by classes
and arrays and proved against functions that say what the result is; protocols are state machines.
`dafny verify dfyconfig.toml` checks the whole project.

**Streaming SHA-1** (`Fips180`, `Sha1Rounds`, `Sha1`). `Fips180` states the hash of FIPS 180-4
(section 4.1.1 functions, 5.1.1 padding, 6.1.2 computation) and nothing of the code. `Sha1Rounds`
follows the 80 unrolled rounds with their rotated register names and the 16-word schedule that is
updated in place, and shows that they compute the same chaining value. `Sha1` adds the 128-byte
staging buffer and the byte counter. Main result: however a message is cut into calls, the digest is
the FIPS digest of the whole message. What code and standard have in common is tied down on its own:
rotation by doubling, addition by counting, the constants as square roots. The carry test of the
counter is right below 2^32 bytes per call, and the exact condition for all lengths is proved.

**UTF-8 to UTF-16** (`Unicode`, `Utf8Converter`). `Unicode` states RFC 3629 section 4 and RFC 2781
section 2.1 and the scalar decoder. `Utf8Converter` has the 16-byte block copier, the hint taken
from the highest mask bit, and the loop around them. Main result: the output is that of the scalar
decoder alone on the input without one leading byte order mark, for both mask spacings. On the UTF-8
of a text it reads back as that text by the rules of RFC 2781 section 2.2, and on any bytes it is
well-formed UTF-16.

**String table** (`StringTable`). Records on storage that is reserved once and committed page by
page. Main result: every offset handed out reads back its string after any later adds, growths and
failures, and a failed add consumes nothing.

**Frame reassembly** (`FrameSplit`, `Framing`). `FrameSplit` is the reference split of a byte
stream. `Framing` is the resumable state machine over short reads with its batch-wise allocator.
Main results: the frames handed on are a prefix of the reference split of the bytes received, and
all of it if and only if no frame in it announces an empty payload (at such a header the code asks
for zero bytes and never moves again); what a sender framed reaches the decoder payload by payload,
unchanged and in order, however the bytes arrive; and the allocator is rewound under a pending
command exactly when a frame that fails to decode arrives while handled commands await their commit.
A stream is given for each of the two.

**TCLAP** (`Tokens`, `Args`, `Accounting`, `Parsing`, `ParseResults`, `CombinedSwitches`,
`CommandLine`, `ParseSurprises`, `Assignments`, `WordWrap`). `Parsing` gives the parse as a function
on snapshots of the arguments; the methods of `CommandLine` are proved to end as it says, with the
state it says, and the results are proved about it. The count of satisfied requirements never
exceeds the number of required arguments, so "Too many arguments!" cannot be thrown. A parse ends
well exactly when no token stops it, every required argument outside the groups took a token, and in
every exclusive group a member took one (a `MultiArg` left over from an earlier parse does not do);
then every required argument is set and exactly one member of each group is. A token of one flag
goes to the first argument that recognises it and stops the parse in exactly three cases. A token of
several letters is taken exactly when each letter stands in it once and belongs to a switch that may
be set; then precisely those switches are toggled. `Assignments` goes from what a user means to what
the program reads: a line written from switches, options with their value attached and options
followed by their value leaves every option with its value, every `MultiArg` with all of its values
in order, every named switch turned over and every exclusive group marked, or stops at the first
item that may not stand there, with the reason. Three surprises follow and are shown on command
lines: a group member set by a letter that is not the last one asked leaves its group's requirement
open; a `MultiArg` keeps its "allow more" state across `reset`, so the same command line is accepted
first and turned down after it; and once a parse has met `--`, no later parse takes any token, for
`reset` leaves the static that says so as it is. `WordWrap` is the usage printer's line breaker.

**Client message memory** (`ClientMemory`, `ClientThreads`). `ClientMemory` is the bump buffer used
by one thread: regions are aligned and disjoint although the space check leaves out the header, and
a flush sends exactly the accepted messages. `ClientThreads` runs writers and flushes under every
interleaving. A writer copies its message and stores the size after it has let the lock go, so a
flush may pass a region whose size is still 0: it then sends nothing for it and never comes back. A
flushed message arrives exactly when its size had been stored before the flush read the header. And
things do get done: a write that runs alone ends with its message stored or refused and the lock
free, a flush that runs alone ends whatever writes fail and has sent every stored message, and from
every reachable state all threads can be brought to rest one after the other.

**Scheme listener** (`Parens`, `Completion`). The backward and the forward parenthesis matcher agree
with matching on the text without its comments, and each finds its way back from what the other
found. Completion with its early stop returns the longest common prefix of all names.

**Level mixer** (`Mixer`). A cell is on exactly when the last call covering it was a Set.

## Conventions

Machine words wrap where the code's do; addresses are indices. The machine is little endian with
64-bit pointers. What the system decides (what a read delivers, whether pages are committed, whether
a socket write fails, how a decoder treats a payload) is a parameter on which every result is
universally quantified. Ghost fields record history only.

## Model

| member | source | states |
|---|---|---|
| Sha1Rounds.F1IsCh | include/sysfn/sha1.h:361 | the macro F1 is Ch for all words |
| Sha1Rounds.F3IsMaj | include/sysfn/sha1.h:363 | the macro F3 is Maj for all words |
| Sha1Rounds.MacroFIsF | include/sysfn/sha1.h:361-364 | the function given to round t is the round function of FIPS 180-4, section 4.1.1 |
| Sha1Rounds.SwappedLoadIsBigEndian | include/sysfn/sha1.h:117-118 | a swapped little-endian load is the big-endian word of the standard |
| Sha1Rounds.M | include/sysfn/sha1.h:392-394 | replacing one slot of the circular schedule yields word i of the 80-word schedule and keeps the window of the last sixteen words |
| Sha1Rounds.R | include/sysfn/sha1.h:396-401 | one macro round with renamed registers is one step of the five shifting variables |
| Sha1Rounds.Rounds0To9 | include/sysfn/sha1.h:414-423 | the registers after ten rounds are the working variables of round 10, the schedule is untouched |
| Sha1Rounds.Rounds10To19 | include/sysfn/sha1.h:424-433 | rounds 10 to 19 reach the working variables of round 20, the last four with a rolling schedule |
| Sha1Rounds.Rounds20To29 | include/sysfn/sha1.h:434-443 | rounds 20 to 29 reach the working variables of round 30 and advance the window by ten words |
| Sha1Rounds.Rounds30To39 | include/sysfn/sha1.h:444-453 | rounds 30 to 39 reach the working variables of round 40 and advance the window by ten words |
| Sha1Rounds.Rounds40To49 | include/sysfn/sha1.h:454-463 | rounds 40 to 49 reach the working variables of round 50 and advance the window by ten words |
| Sha1Rounds.Rounds50To59 | include/sysfn/sha1.h:464-473 | rounds 50 to 59 reach the working variables of round 60 and advance the window by ten words |
| Sha1Rounds.Rounds60To69 | include/sysfn/sha1.h:474-483 | rounds 60 to 69 reach the working variables of round 70 and advance the window by ten words |
| Sha1Rounds.Rounds70To79 | include/sysfn/sha1.h:484-493 | the last ten rounds end in the final working variables |
| Sha1Rounds.RunRounds | include/sysfn/sha1.h:414-493 | the unrolled rounds compute the 80 rounds of the standard for every block and chaining value |
| Sha1Rounds.ProcessOneBlock | include/sysfn/sha1.h:404-500 | one pass of the loop is the compression function of FIPS 180-4, section 6.1.2 |
| Fips180.RotL1Doubles | include/sysfn/sha1.h:390 | a rotation by one doubles and carries the highest bit round |
| Fips180.RotL5IsFiveSteps | include/sysfn/sha1.h:396 | the rotation by five is five rotations by one |
| Fips180.RotL30IsTwoStepsBack | include/sysfn/sha1.h:400 | the rotation by thirty undoes two rotations by one |
| Fips180.AddCounts | include/sysfn/sha1.h:495-499 | addition adds nothing for 0 and one more for one more, modulo 2^32 |
| Fips180.ConstantsAreRoots | include/sysfn/sha1.h:355-358 | the round constants are the integer parts of 2^30 times the square roots of 2, 3, 5 and 10 |
| Fips180.ExpandFollowsRecurrence | include/sysfn/sha1.h:392-394 | the reference schedule obeys the recurrence at every position |
| Fips180.ChainConcat | include/sysfn/sha1.h:404-500 | blocks may be absorbed in any whole-block pieces |
| Fips180.PaddedIsWholeBlocks | include/sysfn/sha1.h:173-189 | the padded message is whole blocks, one or two after the last full one depending on the 56-byte threshold |
| Sha1.CarryTestIsExact | include/sysfn/sha1.h:386-388 | the two-word counter is right if and only if the length is below 2^32 or the addition carries exactly once |
| Sha1.CountStep | include/sysfn/sha1.h:386-388 | below 2^32 bytes the counter adds the length modulo 2^64 |
| Sha1.ProcessBlocks | include/sysfn/sha1.h:404-500 | the block loop chains the compression function over the whole input |
| Sha1.Context.ProcessBlock | include/sysfn/sha1.h:371-501 | the hash state advances by the chain over the data and the counter by its length |
| Sha1.Context.ProcessBytes | include/sysfn/sha1.h:287-350 | at most 64 bytes stay staged, the state is the chain over everything else, and the bytes absorbed are the old ones followed by the new, aligned or not |
| Sha1.Context.TopUp | include/sysfn/sha1.h:291-312 | topping up a non-empty buffer loses no byte and leaves it empty when input remains |
| Sha1.MemcpyWithin | include/sysfn/sha1.h:305-307 | a copy inside the buffer demands that source and destination do not overlap |
| Sha1.Context.DrainBuffer | include/sysfn/sha1.h:299-308 | draining compresses the whole blocks and keeps the tail of the buffer, in bounds and by a copy without overlap |
| Sha1.Context.StagedSplits | include/sysfn/sha1.h:301-307 | the tail is at most as long as the whole blocks in front of it, so the two ranges of the copy are apart |
| Sha1.Context.DrainUnaligned | include/sysfn/sha1.h:319-325 | the misaligned path absorbs block by block and leaves at most 64 bytes |
| Sha1.Context.DrainAligned | include/sysfn/sha1.h:329-331 | the aligned path absorbs all whole blocks at once |
| Sha1.Context.StoreTail | include/sysfn/sha1.h:336-349 | the rest is staged, or compressed at once when it makes a block |
| Sha1.Context.Pad | include/sysfn/sha1.h:182-189 | padding and length are placed behind the staged bytes inside the 128-byte buffer, from a 64-byte fill array |
| Sha1.Context.PadLength | include/sysfn/sha1.h:182-183 | the two stored words are the bit count of the counter, most significant first |
| Sha1.CountBytesIsLengthField | include/sysfn/sha1.h:182-183 | the stored length is eight times the byte count modulo 2^64 |
| Sha1.PaddedTail | include/sysfn/sha1.h:173-189 | what the last one or two blocks hold is the tail of the padded message of FIPS 180-4, section 5.1.1 |
| Sha1.Context.Read | include/sysfn/sha1.h:154-165 | the result is the five words in the byte order of the standard |
| Sha1.Context.Finish | include/sysfn/sha1.h:169-195 | the result is the FIPS 180-4 digest of all absorbed bytes when the counter was exact |
| Sha1.Context.constructor | include/sysfn/sha1.h:130-141 | a new context has absorbed nothing and holds the initial value |
| Sha1.InitialCounts | include/sysfn/sha1.h:133-137 | in memory order the initial value counts through the sixteen nibbles up and down, as section 5.3.1 lists it |
| Sha1.Sha1Buffer | include/sysfn/sha1.h:273-285 | the digest of one piece of memory |
| Sha1.Sha1OfPieces | include/sysfn/sha1.h:287-350 | for every cutting of a message into calls, empty and misaligned pieces included, the digest is that of the whole message |
| Sha1.ReadChunk | include/sysfn/sha1.h:219-249 | short reads are collected, errors that come with bytes are passed over; a chunk that is not full ends the stream unless its end was noted before the call; it fails exactly when a read delivers nothing while the error indicator is set |
| Sha1.Sha1Stream | include/sysfn/sha1.h:200-267 | under every schedule of short and faulty reads: failure exactly when a read delivers nothing while the error indicator is set, else the digest of all that was read, which is the whole stream unless its end was noted before the call |
| Unicode.SequenceIsEncode8 | include/utils_qt/utils_from_qt5.h:108-115 | a well-formed sequence is the encoding of its value, so overlong forms and surrogates are excluded |
| Unicode.Encode8IsRead | include/utils_qt/utils_from_qt5.h:108-115 | the encoding of every scalar value reads back as that value |
| Unicode.DecodeTranscodes | include/utils_qt/utils_from_qt5.h:108-115 | on encoded text the scalar decoder produces exactly the UTF-16 of its scalar values |
| Unicode.DecodeOne | include/utils_qt/utils_from_qt5.h:109-114 | at least one byte is consumed and never more words than bytes are produced |
| Unicode.Encode16IsRead | include/utils_qt/utils_from_qt5.h:108-115 | the words of a scalar value read back as that value by RFC 2781, section 2.2, high surrogate first |
| Unicode.EncodeAll16IsRead | include/utils_qt/utils_from_qt5.h:108-115 | so does the UTF-16 of a whole text, and different texts never look alike |
| Unicode.DecodeOneIff | include/utils_qt/utils_from_qt5.h:109-114 | an encoding is consumed whole for the words of its value; a byte where none starts becomes the one word U+FFFD |
| Unicode.DecodeIsText | include/utils_qt/utils_from_qt5.h:68-121 | whatever the bytes, the output is well-formed UTF-16 |
| Utf8Converter.HighestBitIsLastNonAscii | include/utils_qt/utils_from_qt5.h:57-61 | the highest mask bit divided by the spacing is the last byte of the block that is not ASCII |
| Utf8Converter.CopyAsciiFront | include/utils_qt/utils_from_qt5.h:51-55 | the front of a block up to its first non-ASCII byte is copied and the mask shifted along |
| Utf8Converter.SimdDecodeAscii | include/utils_qt/utils_from_qt5.h:20-66 | the copier moves a run of ASCII, stops at the end or before a byte that is not, and its hint is one past the last such byte of the block |
| Utf8Converter.DecodeScalar | include/utils_qt/utils_from_qt5.h:108-114 | one turn of the scalar loop produces what the scalar decoder does, one replacement per bad byte |
| Utf8Converter.DecodeUntil | include/utils_qt/utils_from_qt5.h:108-115 | the scalar loop keeps the output on course wherever the hint falls inside a multi-byte sequence |
| Utf8Converter.Convert | include/utils_qt/utils_from_qt5.h:68-121 | for every input the words are those of the scalar decoder on the input without one leading mark, all stores are in bounds and no more words than bytes are written |
| Utf8Converter.ConvertsEncodedText | include/utils_qt/utils_from_qt5.h:95-101 | on the UTF-8 of a text the result is its UTF-16 without one leading mark, and reads back as that text |
| StringTable.RecordIsRead | include/utils_qt/qstringdatatable.h:86-96 | memory that holds a record reads back as its string through the static header, whose reference count is -1 and whose other fields are 0 |
| StringTable.QStringDataTable.MkStorage | include/virtualallocbuffer.h:62-73 | storage is usable exactly when the range is reserved, large enough and its first pages are committed |
| StringTable.QStringDataTable.ResizeStorage | include/virtualallocbuffer.h:80-93 | the committed size grows exactly when it stays in the reserved range and the system complies; no byte moves |
| StringTable.QStringDataTable.MoveEnd | include/membuffer.h:63-71 | the end moves exactly when the room is there |
| StringTable.QStringDataTable.Malloc | include/membuffer.h:84-95 | space behind all records inside committed storage, after at most one growth, or nothing consumed |
| StringTable.QStringDataTable.Compose | include/utils_qt/qstringdatatable.h:28-43 | indentation, scope tag and converted text fill a temporary array of sz + indent + tag words without overrun |
| StringTable.EntryReads | include/utils_qt/qstringdatatable.h:28-43 | the string of an entry reads as its indentation, "{ " for an entry and "} " for an exit, and the text that was added |
| StringTable.QStringDataTable.WriteRecord | include/utils_qt/qstringdatatable.h:47-48 | header and words are written into the new region and nowhere else |
| StringTable.QStringDataTable.AddQStringDataFromUtf8 | include/utils_qt/qstringdatatable.h:23-52 | the string is stored behind all others, which keep reading back, or the add fails exactly for lack of room and consumes nothing |
| StringTable.QStringDataTable.GetQString | include/utils_qt/qstringdatatable.h:86-100 | an offset some add returned gives the string of that add |
| StringTable.QStringDataTable.Clear | include/utils_qt/qstringdatatable.h:21 | no record is left, the storage stays |
| StringTable.RecordsAreDisjoint | include/utils_qt/qstringdatatable.h:44-49 | no byte belongs to two records and every record lies in committed storage |
| FrameSplit.SplitExtends | trace_server/connection_stream.cpp:184-304 | the split of a longer stream continues the split of a shorter one from its remainder |
| FrameSplit.WellFormedRemainder | trace_proto/header.h:13-20 | the remainder of a well-formed stream is the head of one |
| FrameSplit.HeaderIsRead | trace_proto/header.h:14-15 | the length a sender puts into the upper 24 bits of the header word is the length that is read, for every length |
| FrameSplit.FrameIsRead | trace_proto/header.h:14-15 | a frame in front of anything is recognised as itself, with its payload |
| FrameSplit.StreamIsSplit | trace_server/connection_stream.cpp:184-304 | splitting undoes framing, whatever follows, and the stream is well-formed exactly when every frame fits |
| FrameSplit.PayloadsInOrder | trace_server/connection_stream.cpp:214-241 | a stream cut off anywhere splits into the first of the payloads that were sent |
| Framing.MemBuffer.ResizeStorage | include/membuffer.h:45-51 | the heap is replaced and the taken bytes are copied |
| Framing.MemBuffer.MoveEnd | include/membuffer.h:63-71 | the end moves exactly when the room is there |
| Framing.MemBuffer.Malloc | include/membuffer.h:84-95 | a block behind the taken bytes, after a replacement of the heap exactly when it does not fit, or failure with nothing taken |
| Framing.Connection.constructor | trace_server/connection.cpp:48 | a new connection has received nothing and its decoder memory is 64 KiB |
| Framing.Connection.Receive | trace_server/connection_stream.cpp:198-204 | read bytes are appended, flags follow from what is buffered, and the split stays frames handed on plus what is buffered |
| Framing.Connection.ReadHeader | trace_server/connection_stream.cpp:186-211 | a read never crosses the header, and progress is told by the count |
| Framing.Connection.ReadPayload | trace_server/connection_stream.cpp:214-241 | a read never crosses the frame boundary, and a complete frame is recognised exactly |
| Framing.Connection.EnsureRoom | trace_server/connection_stream.cpp:253-276 | the allocator is rewound and grown only after everything pending was committed, and then has room |
| Framing.Connection.BerDecode | trace_server/connection_stream.cpp:278 | a decoder that stays within the estimate never moves the memory of earlier commands |
| Framing.Connection.Commit | trace_server/connection_stream.cpp:306-313 | the commands read at commit are exactly the decoder's output for the frames accepted so far, in order, unless memory was clobbered |
| Framing.Connection.ResetAllocator | include/membuffer.h:106-109 | rewinding clobbers exactly when something awaits commit |
| Framing.Connection.NextFrame | trace_proto/decoder.h:36-41 | resetting the context after a complete frame discards no byte of the next one |
| Framing.Connection.HandleFrame | trace_server/connection_stream.cpp:243-302 | the buffered frame goes to the decoder; memory is clobbered exactly when it fails while commands are pending |
| Framing.Connection.HandleNext | trace_server/connection_stream.cpp:243-302 | within one call all frames before a failing one decode, and while their estimates fit they are all still pending |
| Framing.Connection.ReadFrame | trace_server/connection_stream.cpp:212-302 | while a header is held: the payload stays incomplete for lack of data or because it is empty, or exactly one more frame is handed on and handled |
| Framing.Connection.ReadBatch | trace_server/connection_stream.cpp:184-304 | the loop stops for lack of data, at a full batch, or at the first frame that does not decode, and for no other reason |
| Framing.Connection.FinishBatch | trace_server/connection_stream.cpp:306-314 | the end of a batch commits everything and discards no buffered byte |
| Framing.Connection.ProcessStream | trace_server/connection_stream.cpp:177-317 | under every schedule of reads over any number of calls the frames are a prefix of the reference split, and all of it if and only if no frame in it announces an empty payload; a frame that does not decode ends the call; allocator memory is safe unless that happens under a pending command; early ends have their exact reasons |
| Framing.Connection.FramesSoFar | trace_server/connection_stream.cpp:184-304 | the frames handed on are the reference split if and only if none in it announces an empty payload; otherwise the one that does comes next |
| Framing.Connection.PayloadsArrive | trace_server/connection_stream.cpp:184-304 | the decoder has been handed the first of the framed payloads, unchanged and in order; all of them once the stream was read, exactly when none is empty |
| Framing.ContentsKept | include/membuffer.h:84-95 | writes above the end leave every held command as it was |
| Framing.FailureUnderPendingCommand | trace_server/connection_stream.cpp:279-287 | a stream of two frames on which one call rewinds the allocator under a pending command |
| Framing.EmptyPayloadStalls | trace_server/connection_stream.cpp:217-225 | a header announcing no payload, after which a good frame is never handed on |
| Args.Arg.CombinedSwitchesMatch | 3rd/tclap/SwitchArg.h:169-202 | the first occurrence of the switch's letter in a combined token is blanked, and nothing else |
| Args.Arg.CommonProcessing | 3rd/tclap/SwitchArg.h:204-221 | the switch is toggled once, or the exception says whether its group or itself stood in the way |
| Args.Arg.ProcessSwitch | 3rd/tclap/SwitchArg.h:223-253 | a switch takes its own flag or name, or its one letter in a combined token, and answers yes to a combined token exactly when that was the last letter; the status is exact |
| Args.Arg.TakeValue | 3rd/tclap/ValueArg.h:357-372 | the value is what follows the delimiter or the next token, and each way to fail is told apart |
| Args.Arg.ProcessValue | 3rd/tclap/ValueArg.h:331-380 | the value of the recognised token is taken once; the status is exact |
| Args.Arg.ProcessMulti | 3rd/tclap/MultiArg.h:308-356 | the value is appended, whatever was set before; the status is exact |
| Args.Arg.ProcessArg | 3rd/tclap/Arg.h:590-597 | for each kind: what changes in the argument and in the token, where the parse goes on, and exactly when and how it throws |
| Args.Arg.AllowMore | 3rd/tclap/MultiArg.h:417-422 | only the second and later calls on a MultiArg answer yes |
| Args.Arg.Reset | 3rd/tclap/MultiArg.h:425-429 | switch, value and values return to their start and the argument is unset; the allow-more state stays |
| Args.FoundOnce | 3rd/tclap/SwitchArg.h:236-242 | if the second look finds no letter, the letter had stood in the token once, and blanking removed it |
| Args.FoundTwice | 3rd/tclap/SwitchArg.h:240-242 | if the second look finds the letter again, it had stood there more than once |
| Accounting.SetInCombination | 3rd/tclap/SwitchArg.h:244-249 | a switch set inside a combined token changes no account |
| Accounting.MatchUngrouped | 3rd/tclap/XorHandler.h:135-138 | a match outside the groups credits the argument exactly once |
| Accounting.Claim | 3rd/tclap/XorHandler.h:112-131 | the first match in a group credits the whole group, and only it |
| Accounting.ClaimAgain | 3rd/tclap/XorHandler.h:127-129 | a MultiArg that matches again in its own group credits nothing more |
| Accounting.Matched | 3rd/tclap/CmdLine.h:473-475 | every match keeps the count equal to the number of credited arguments, and the first match in a group makes its argument the owner |
| Accounting.FullCount | 3rd/tclap/CmdLine.h:492-496 | the count never exceeds the number of required arguments, reaches it exactly when all are credited, and then every group has exactly one member set |
| Accounting.RegisterOne | 3rd/tclap/CmdLine.h:431-443 | registering one argument keeps the number of required arguments right |
| Accounting.RegisterGroup | 3rd/tclap/CmdLine.h:406-416 | registering a group raises the number of required arguments by its size |
| Accounting.FreshBooks | 3rd/tclap/CmdLine.h:466 | a parse starts with the count 0 in balance |
| CombinedSwitches.OneMore | 3rd/tclap/SwitchArg.h:187-198 | one more switch that finds its letter keeps the record of toggled switches and blanked letters |
| CombinedSwitches.UsedUp | 3rd/tclap/CmdLine.h:483-484 | a fully blanked token held only letters of toggled switches, each once |
| CombinedSwitches.NobodyTakesIt | 3rd/tclap/Arg.h:620-648 | no argument takes a token of several letters as its own flag or name, however far it is blanked |
| CombinedSwitches.NotConcerned | 3rd/tclap/Arg.h:590-597 | an argument that does not recognise a token of one flag has no objection and changes nothing |
| CombinedSwitches.SimpleToken | 3rd/tclap/CmdLine.h:471-479 | a token of one flag goes to the first argument that recognises it, which takes it or objects |
| CombinedSwitches.SimpleTurn | 3rd/tclap/CmdLine.h:468-490 | a token of one flag stops the parse exactly when nobody recognises it and it is neither empty nor a bare "-", its argument objects, or another member of its group is set |
| CombinedSwitches.EmptyTokens | 3rd/tclap/CmdLine.h:524-534 | of the tokens without blanks the parse swallows the empty one and the bare flag start, and no other |
| CombinedSwitches.LetterVerdict | 3rd/tclap/SwitchArg.h:236-244 | an argument objects to a token of several letters exactly when its letter stands there twice or it may not be set, however many letters are blanked already |
| CombinedSwitches.LetterStep | 3rd/tclap/SwitchArg.h:236-249 | asking one more argument toggles it and blanks its letter if it has one, changes nothing else, and takes the token exactly when that was the last letter |
| CombinedSwitches.CombinedAsked | 3rd/tclap/CmdLine.h:471-479 | when the asking ends, exactly the letter switches asked so far are toggled |
| CombinedSwitches.TakenFairly | 3rd/tclap/SwitchArg.h:204-221 | a token that is taken had only letters of switches that could be set |
| CombinedSwitches.CombinedTaken | 3rd/tclap/SwitchArg.h:223-253 | when every letter can be used the token is taken |
| CombinedSwitches.CombinedToken | 3rd/tclap/CmdLine.h:470-484 | a token of several letters is taken if and only if every letter stands once and is the flag of a switch that may be set; one that nobody takes or somebody objects to stops the parse, lenient and ignoring parses aside; one that is taken stops it if and only if another member of the taker's group is set; otherwise exactly those switches are toggled, nothing but members of the taker's group is marked, the token is blank, and only the last of them in the list answers for its group |
| CombinedSwitches.IgnoringTakesNothing | 3rd/tclap/SwitchArg.h:225-226 | a parse that starts while the rest is ignored has no takers, raises no exception at a token and changes nothing |
| ParseResults.EffectKinds | 3rd/tclap/CmdLine.h:473 | an argument without objection matches, is set inside a combination, or is unchanged |
| ParseResults.AskKeeps | 3rd/tclap/CmdLine.h:471-479 | asking the arguments keeps the books in balance up to the one that takes the token |
| ParseResults.TakenKeeps | 3rd/tclap/CmdLine.h:475 | a taker brings its worth into the count and becomes the owner of its group |
| ParseResults.TurnKeeps | 3rd/tclap/CmdLine.h:468-490 | each turn of the loop keeps the count equal to the credited arguments and the owners equal to those who took tokens |
| ParseResults.RunKeeps | 3rd/tclap/CmdLine.h:466-490 | so does the whole loop |
| ParseResults.CreditedIffTaken | 3rd/tclap/XorHandler.h:100-139 | every required argument is credited exactly when whoever had to take a token took one |
| ParseResults.FinalCount | 3rd/tclap/CmdLine.h:492-496 | the final count is at most the number of required arguments, and equal to it exactly when whoever had to take a token took one |
| ParseResults.ParseSucceedsIff | 3rd/tclap/CmdLine.h:466-496 | for every command line: never too many arguments; success if and only if no token stops the parse and all who had to took tokens; success leaves all required arguments set and one of each group |
| ParseSurprises.LetterWithoutCredit | 3rd/tclap/SwitchArg.h:246-249 | the letters xz with x in a group and z outside set x and still count nothing |
| ParseSurprises.MiddleLetterOfAGroup | 3rd/tclap/CmdLine.h:492-493 | that command line, registered and parsed, reports a missing argument although x is set |
| ParseSurprises.GroupAgain | 3rd/tclap/MultiArg.h:417-422 | a MultiArg of a group counts for its group or for nothing, depending on an earlier parse |
| ParseSurprises.GroupParsedTwice | 3rd/tclap/MultiArg.h:424-429 | the same command line is accepted, and after a reset turned down |
| ParseSurprises.DashesAreTaken | 3rd/tclap/CmdLine.h:396-400 | the command line `--` is accepted and has the rest ignored from then on |
| ParseSurprises.NothingAfterDashes | 3rd/tclap/Arg.h:80 | after `--` and a reset, the command line `-x` is accepted and x is not set |
| Assignments.ItemTurn | 3rd/tclap/CmdLine.h:468-490 | an item whose token addresses its argument is refused for the one stated reason, or sets that argument as meant and shuts its rivals out, and the parse goes on behind it |
| Assignments.BareOption | 3rd/tclap/ValueArg.h:357-370 | an option without a value stops the parse: no delimiter, or nothing follows |
| Assignments.LineMeans | 3rd/tclap/CmdLine.h:466-490 | parsing a line written from items has the meaning of the items, one after the other: exception, takers and all arguments |
| Assignments.LineIsRead | 3rd/tclap/ValueArg.h:366-372 | after an accepted line every option holds its value, every MultiArg all of its values in order, every named switch is turned over, and nothing else reads differently |
| Assignments.ParseLine | 3rd/tclap/CmdLine.h:457-496 | the methods leave the arguments as the items say, and then only a missing requirement can be wrong |
| Assignments.EveryTagAddresses | 3rd/tclap/Arg.h:590-597 | with distinct names free of delimiter and blank, every flag and name addresses its own argument, whatever the value |
| CommandLine.CmdLine.Add | 3rd/tclap/CmdLine.h:431-443 | an argument is put in front exactly when no other has its flag or name |
| CommandLine.CmdLine.AddArg | 3rd/tclap/CmdLine.h:426-443 | an argument is refused exactly when its name or its flag is taken; registration keeps the invariant on required arguments |
| CommandLine.CmdLine.RegisteredFlagsApart | 3rd/tclap/CmdLine.h:433-437 | registered arguments never share a flag, which combined tokens rest on |
| CommandLine.CmdLine.XorAdd | 3rd/tclap/CmdLine.h:406-416 | a group is registered in front of the list with all its members required, or two arguments clash, one that is registered already included |
| CommandLine.CmdLine.AddMembers | 3rd/tclap/CmdLine.h:410-415 | the members are required and put in front one by one, until two arguments clash |
| CommandLine.CmdLine.ClaimGroup | 3rd/tclap/XorHandler.h:110-131 | succeeds exactly when no other member is set, then excludes all others and tells the weight |
| CommandLine.CmdLine.Check | 3rd/tclap/XorHandler.h:100-139 | the worth of a match and the exclusion of the others are those of the reference, or the group refuses |
| CommandLine.CmdLine.AskOne | 3rd/tclap/CmdLine.h:473 | handing a token to one argument has the status and the effect the reference gives, and no other |
| CommandLine.CmdLine.AskNext | 3rd/tclap/CmdLine.h:473 | one turn of the inner loop leaves the answer of the reference what it was, or is that answer |
| CommandLine.CmdLine.AskAll | 3rd/tclap/CmdLine.h:471-479 | the inner loop ends as the reference says: who took the token or objected, and with which state |
| CommandLine.CmdLine.ParseToken | 3rd/tclap/CmdLine.h:468-490 | one turn of the loop ends as the reference says, group and unmatched tokens included |
| CommandLine.CmdLine.ParseTokens | 3rd/tclap/CmdLine.h:466-490 | the outer loop ends as the reference says: exception, or count, takers and state |
| CommandLine.CmdLine.Parse | 3rd/tclap/CmdLine.h:457-496 | status and final state are those of the reference; "Too many arguments!" is never thrown; success if and only if no token stops the parse and all who had to took tokens; success leaves every required argument set and exactly one member of each group |
| CommandLine.CmdLine.Reset | 3rd/tclap/CmdLine.h:631-637 | every argument is unset and has its initial value, so the command line may be parsed again, but the allow-more states and the static that has the rest ignored stay |
| WordWrap.Trim | 3rd/tclap/StdOutput.h:251-264 | the piece ends at the last break point in the room, or fills the room when there is none |
| WordWrap.CutAtNewline | 3rd/tclap/StdOutput.h:266-269 | the piece is cut behind its first newline |
| WordWrap.NextLine | 3rd/tclap/StdOutput.h:246-288 | with room the loop advances; without room it stays put exactly when no space is next |
| WordWrap.SpacePrint | 3rd/tclap/StdOutput.h:230-296 | terminates, prints the indented pieces, and the pieces with the dropped spaces make up the whole text |
| WordWrap.WrappedKeepsText | 3rd/tclap/StdOutput.h:284-288 | only spaces between lines are dropped |
| WordWrap.WrappedFits | 3rd/tclap/StdOutput.h:183-188 | every line is non-empty, fits the width with its indent, and has a newline only at its end |
| WordWrap.WordsStayWhole | 3rd/tclap/StdOutput.h:251-264 | a line that ends inside a word, and not at a newline, is full and has no break point behind its first character |
| WordWrap.LineIsPrinted | 3rd/tclap/StdOutput.h:271-284 | each line is printed behind those before it, as its indent in spaces, its text and a newline |
| ClientMemory.RegionFits | trace_client/AsioSocketClient.h:69-73 | the space check without the header accepts exactly the regions whose aligned end lies in the memory |
| ClientMemory.RegionsAreDisjoint | trace_client/AsioSocketClient.h:64-85 | regions share no byte |
| ClientMemory.Memory.AcquireMem | trace_client/AsioSocketClient.h:64-85 | the write pointer moves to the aligned end, the header says size 0 and the region's size, nothing else is written |
| ClientMemory.Memory.FillRegion | trace_client/AsioSocketClient.h:378-380 | message and size are stored inside the region |
| ClientMemory.Memory.WriteToBuffer | trace_client/AsioSocketClient.h:373-387 | the message is stored behind all others, or refused exactly when its region does not fit |
| ClientMemory.Memory.Flush | trace_client/socket_asio_client.h:402-434 | sends exactly the accepted messages in order, retrying failed writes, and ends with the read pointer on the write pointer |
| ClientThreads.StepKeeps | trace_client/AsioSocketClient.h:64-85 | every step of every thread keeps lock, regions, headers and flush position consistent |
| ClientThreads.EveryInterleaving | trace_client/AsioSocketClient.h:24-85 | under every interleaving one thread at most is inside the lock, regions are 64-aligned, disjoint and in bounds, and each flushed region was sent as its message or as nothing |
| ClientThreads.HistoryGrows | trace_client/AsioSocketClient.h:402-418 | what was sent for a region is final |
| ClientThreads.ArrivedIff | trace_client/AsioSocketClient.h:378-380 | a flushed message arrived if and only if its size was stored before the flush read it, or it is empty |
| ClientThreads.QuietFlushesSendAll | trace_client/AsioSocketClient.h:400-419 | if no flush meets a writer between lock and size, all messages passed are sent unchanged and in order |
| ClientThreads.InFlightIsLost | trace_client/AsioSocketClient.h:402-418 | a flush that meets a writer in flight loses its message for good |
| ClientThreads.LossIsReachable | trace_client/AsioSocketClient.h:373-380 | one writer and one flush suffice for the loss |
| ClientThreads.IdleIsSequential | trace_client/AsioSocketClient.h:373-387 | when all threads are idle the memory holds every message as the sequential model says |
| ClientThreads.CopyEnds | trace_client/AsioSocketClient.h:378-380 | a writer that copies stores the size after as many steps as bytes are left and one more, and comes to rest |
| ClientThreads.WriterEnds | trace_client/AsioSocketClient.h:60-85 | a writer that has or can take the lock ends with its message stored in a new region, or refused, and the lock free |
| ClientThreads.WalkEnds | trace_client/AsioSocketClient.h:402-418 | a flush inside the lock ends; a failed write costs it two steps and nothing else |
| ClientThreads.WriteAlone | trace_client/AsioSocketClient.h:373-387 | a whole write that runs alone ends with the message stored or refused and the lock free |
| ClientThreads.FlushAlone | trace_client/AsioSocketClient.h:400-419 | a whole flush that runs alone ends, whatever writes fail, with the lock free and every stored message sent |
| ClientThreads.WriteThenFlush | trace_client/AsioSocketClient.h:373-419 | messages do arrive: a write and a flush after it deliver the message behind all that was stored before |
| ClientThreads.NoDeadEnd | trace_client/AsioSocketClient.h:24-33 | from every reachable state all threads can be brought to rest, and then every message is stored and the lock free |
| Parens.FindOpenParen | 3rd/s7/glistener.c:953-1038 | finds the enclosing parenthesis of the text without its comments, if and only if there is one behind the limit |
| Parens.FindCloseParen | 3rd/s7/glistener.c:1041-1098 | finds the closing parenthesis of the text without its comments, if and only if there is one before the limit |
| Parens.MatchersAreInverse | 3rd/s7/glistener.c:1217-1262 | for parentheses outside comments one matcher leads from the first to the second exactly when the other leads back |
| Parens.ThereAndBack | 3rd/s7/glistener.c:1217-1262 | running the backward matcher from what the forward matcher found leads back to the open parenthesis |
| Parens.BackAndThere | 3rd/s7/glistener.c:1217-1262 | running the forward matcher from what the backward matcher found leads back to the close parenthesis |
| Parens.EnclosesOnce | 3rd/s7/glistener.c:1015-1024 | the backward result is an open parenthesis and unique |
| Parens.ClosesOnce | 3rd/s7/glistener.c:1076-1085 | the forward result is a close parenthesis and unique |
| Completion.MatchInfo.CompareNames | 3rd/s7/glistener.c:2326-2353 | the match is the longest common prefix of the names so far that extend the text, and the answer asks to stop exactly when nothing beyond the text can remain |
| Completion.SymbolCompletion | 3rd/s7/glistener.c:2356-2380 | the longest common prefix of all names extending the text, early stop or not; nothing exactly when that is no longer than the text or no name extends it |
| Completion.OneMore | 3rd/s7/glistener.c:2341-2350 | truncating the match at the first difference is the longest common prefix with one more name |
| Completion.NothingToGain | 3rd/s7/glistener.c:2352 | once only the text is common, more names change nothing |
| Mixer.MixerConfig.SetRuntimeLevelForContext | trace_client/MixerConfig.h:27-34 | the cells of the call's contexts and levels are on, all others as before |
| Mixer.MixerConfig.UnsetRuntimeLevelForContext | trace_client/MixerConfig.h:35-42 | the cells of the call's contexts and levels are off, all others as before |
| Mixer.MixerConfig.RuntimeFilterPredicate | trace_client/MixerConfig.h:70-83 | true exactly when some cell of the message's contexts and levels was last set |
| Mixer.MeetsInABit | trace_client/MixerConfig.h:78-79 | two words meet exactly when they share a single bit |

## Left out

- Qt widgets, sound, docking, GTK drawing and key bindings: user interface.
- asio connect, timer and reconnect callbacks, `AsyncWriteNext` and the buffered asynchronous path: scheduled by a library, and the buffered path is unfinished.
- BER decoding and encoding: calls into a library; a decoder here is any function from payloads to allocated blocks within four times the payload, and `tryHandleCommand` is reduced to holding those blocks until the commit.
- `MMapBuffer`, file sinks, time queries, the `Stats` counters and the exception handlers around `processStream`.
- `QStringDataTable::AddQStringData`: its byte and character counts disagree.
- CombinedSwitches.CombinedToken: no flag is the blank character and no two arguments share a flag, as registration ensures for all but the blank.
- CommandLine.CmdLine.constructor: the statics of `Arg` start afresh, as in a program that makes one command line; sharing them between several is not modelled.
- CommandLine.CmdLine.Parse: after an exception only its kind is stated, not the half-changed arguments.
- Assignments.LineMeans: the items of a line are single switches and options; tokens of several letters are the matter of CombinedSwitches.CombinedToken.
- TCLAP's unlabeled and multi-switch arguments, `ignoreRest` tokens beyond its visitor, help and version output, constraints' own texts, and value extraction: values stay strings, `accepts` stands for extraction and constraint.
- String literals, block comments and character constants in the parenthesis matchers: the text has no quote, bar or backslash, and lines end with the newline character alone.
- Arithmetic overflow of `size_t` in `AcquireMem` and of `int` in `spacePrint`.
- Framing.Connection.ProcessStream: assumes version 1 and frames that fit the 16384-byte receive buffer, as the code asserts or relies on; other headers are not modelled.
- Sha1.Sha1Stream: does not model a failing `malloc`.
- Sha1.Context.ProcessBytes: on the aligned path the counter is promised only below 2^32 bytes per call; CarryTestIsExact gives the exact condition.
- ClientMemory.Memory.Flush: a failed socket write delivers nothing; partial delivery by a failing write is not modelled, and a socket that fails for ever keeps the loop running.
- ClientThreads.EveryInterleaving: memory is sequentially consistent and `memcpy` copies byte by byte upwards; weaker memory orders are not modelled.
- ClientThreads.NoDeadEnd: says that rest can be reached, not that every scheduler reaches it; the spin lock is not fair and may starve a thread.
- WordWrap.SpacePrint: the width must exceed indent plus second-line offset, as all callers ensure; NextLine shows how the loop gets stuck at equality, smaller widths (negative lengths) are not modelled.
- Parens.FindOpenParen: `parens0` is positive, as all callers ensure, and positions are not negative.
- Completion.SymbolCompletion: the completer offers its names in order until told to stop; the names shown in the status line and the default completer are not modelled.
- Mixer.MixerConfig.SetRuntimeLevelForContext: the mixer starts from all zeros, as a static object does; its constructor writes nothing.
- StringTable.QStringDataTable.AddQStringDataFromUtf8: the reserved range is at most 4 GiB so that offsets fit 32 bits.
