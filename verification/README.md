# Models of the hub firmware

A Dafny model of the pure C components of a dual-core home hub: the message ring and audio
pipe shared by the cores, the Protocol Buffers codec, the image path with the Huffman codes of
its inflater, the eMMC block layer, the text viewer, the calendar, the automation rules and the home
loop that applies them, the CHIP-8 interpreter, and the path jail with the file browser on top of it.

`dafny verify dfyconfig.toml` checks everything.

Each component has a machine on values (datatypes and functions) and, where the C code works
in place, a class or method over arrays that is proved to compute the machine. The laws are
lemmas about the machine. Where machine and method could share a mistake, a law says in numbers,
from the bytes, events or calls that come in, what comes out, and names no function of the
machine's own.

| files | component |
|---|---|
| Machine, WrapArithmetic | fixed-width integers; slot numbering of wrapping counters |
| IpcRing, IpcRingWrap, IpcRingObject, IpcLink | message ring: the two cores' steps interleaved; the exact wrap condition; the ring object; what is delivered, in terms of the calls |
| AudioPath, AudioRuns, AudioSound | byte pipe, sample queue and the PCM branch of the audio engine; what runs of pushes and fills conserve; samples and volume in numbers |
| PipeSteps, PipeQuiet | the pipe between two cores, byte step by byte step; what that comes to while one core is quiet |
| PbWire, PbStream, PbInput | varints, zigzag, fixed numbers; output and input streams |
| PbModel, PbRoundTrip, PbCompat | descriptors and messages, what encoding and decoding mean, round trip, unknown fields |
| PbBytes, PbReads, PbRequired | the wire format in numbers; what a reader takes and refuses; required fields |
| PbEncode, PbDecode, PbLayout, PbIter | encoder and decoder methods; packed descriptors and the field iterator |
| Scaler, Bmp, Png, Pictures | last-writer-wins scaler, BMP pixel loop, PNG unfiltering; the pictures shown, in the bytes of the files |
| Huffman, HuffmanOrder, HuffmanTable, HuffmanKraft, Puff | canonical Huffman codes, the rules that fix them, and Kraft's inequality; building the table; the inflater's bit reader and its plain and fast decoder |
| Emmc | block reads and writes through the bounce buffer |
| Utf8, TextPages, TextShown, TextViewer | windows and pages of a text file; what is shown of any bytes |
| Calendar, Clock | four calendar algorithms |
| AutoRules, AutoPending, AutoEdges, AutoFirings, AutoDrain, AutoNumbers, AutoEngine | rules, pending table, edges, what actions come from, draining, numbering; the engine over parallel arrays |
| HomeDevices, HomeLoop, HomeRuns | commands to devices and the drain loop; runs of the home |
| Chip8Machine, Chip8Sprites, Chip8Steps, Chip8Runs, Chip8Laws, Chip8 | the interpreter; every instruction from its two bytes |
| PathSpec, VfsPath, FilesNav, Files | paths of the user area and navigation |

Conventions: C integers are subset types with wrap-around written out; a bitwise OR of bits
that do not overlap is written as an addition, a shift as a division or a multiplication; C
strings are sequences without the terminator; a stream, table or buffer that C changes in
place is an array or a field. Fields called history record what happened; no branch depends
on them.

What the code does not do in general, each with its exact condition and most with a witness:

- The message ring is first-in first-out only while at most 16 of its 60 slots are in use
  around a counter wrap (`IpcRingWrap.ShippedRingNeedsAtMost16`).
- A fill that finds an odd number of bytes in the pipe and too few samples queued and in its
  whole chunks loses a byte (`AudioRuns.RunsConserve`, `AudioRuns.OddPushMisaligns`).
- With the cores interleaving, a pop that starts when an odd number of bytes can be had loses
  a byte, also when all pushes are even (`PipeSteps.InterleavedLoss`,
  `PipeSteps.EvenPushOddReads`).
- A page boundary between CR and LF shows the line end twice
  (`TextPages.ShownIsNormalizedExactly`, `TextPages.CutLineEndShown`), and paging back then
  forward can move (`TextPages.BackThenForward`, `TextPages.PagingMoves`).
- A code without any symbols is built with the result that promises that decoding cannot fail,
  and decoding with it always fails (`HuffmanTable.ZeroMeansComplete`).
- Where a byte near the end of a file promises more bytes than are left, a question mark stands
  for all of them, though whole characters may be among them (`TextShown.TailShown`,
  `TextShown.TailHidesLetter`).
- After a rule with number 65535 the next one is numbered 0, which means no number
  (`AutoNumbers.LastNumberExactly`).
- A required field that is missing is noticed only if it is one of the first 64
  (`PbRequired.OlderWriterExactly`).
- The weekday formula is off in January and February of year 0 (`Calendar.WeekdayIsExact`).
- A delayed OFF is delivered before its ON when the millisecond clock wraps between them
  (`AutoDrain.OffFirstExactly`, `AutoDrain.WrapRunLeavesOn`).
- A device named like another device's address captures its commands
  (`HomeDevices.AddressReachesExactly`, `HomeDevices.NameCapturesAddress`).
- A file opened eight directories deep notes its scroll position outside the scroll stack
  (`FilesNav.RunStaysInsideExactly`, `FilesNav.FullStackReached`).
- A sprite whose coordinate is in register 15 is not drawn away by drawing it again
  (`Chip8Sprites.DrawTwiceExactly`, `Chip8Sprites.FlagCoordinateMoves`).
- Flag and result do not hold the exact sum, difference or shifted number when register 15 is
  an operand (`Chip8Laws.FlagCompletesSum` and the two laws after it).
- The 32-bit varint decoder lets through some numbers of 2^63 and more
  (`PbWire.Dec32Exactly`).

## Model

| member | source | states |
|---|---|---|
| `WrapArithmetic.SlotCollision` | firmware/src/ipc/ipc_ring.c:7-11 | for any counter modulus and capacity, two positions closer than the capacity share a slot if and only if the counter wraps between them and their distance is the remainder of modulus by capacity |
| `WrapArithmetic.NoCollisionWhenDivides` | firmware/src/svc/audio_pipe.c:51-54 | a capacity that divides the modulus never collides |
| `WrapArithmetic.ShippedRings` | firmware/include/ipc/ipc_msg.h:77 | the law for the three shipped rings: 60 message slots collide only at distance 16, 16384 pipe bytes never, 4608 queued samples only at distance 2560 |
| `IpcRing.FreshSlot` | firmware/src/ipc/ipc_ring.c:120-130 | while the occupancy is within the safe bound the slot being filled is none of the unread ones |
| `IpcRing.ProducerKeeps` | firmware/src/ipc/ipc_ring.c:104-131 | each shared access of a send keeps the ring invariant: unread slots hold exactly the unread messages, whatever the consumer is in the middle of |
| `IpcRing.ConsumerKeeps` | firmware/src/ipc/ipc_ring.c:133-166 | the same of each shared access of a receive, with a possibly stale copy of the producer's index |
| `IpcRing.SafeRunsAreFifo` | firmware/src/ipc/ipc_link.c:128-155 | over every interleaving of the two cores within a safe occupancy, what was received is a prefix of what was sent, with sequence numbers counting modulo 2^16; IpcLink.SafeRunsDeliver says it of the arguments of the sends |
| `IpcLink.SafeRunsDeliver` | firmware/src/ipc/ipc_link.c:128-155 | over every interleaving within a safe occupancy, message k received has the destination, type, length and bytes that accepted send k was called with, source 4 for destination 4 and 1 otherwise, and number k modulo 2^16 |
| `IpcLink.FifoIsDelivered` | firmware/src/ipc/ipc_link.c:128-155 | for every run: what was received is a prefix of what was sent if and only if each message is as its call asked |
| `IpcLink.DeliversExactly` | firmware/src/ipc/ipc_ring.c:104-166 | every interleaving with at most b slots in use delivers what the calls asked if and only if the slot count divides 2^16 or b is at most the remainder |
| `IpcLink.QuietSend` | firmware/src/ipc/ipc_link.c:128-147 | a send of up to 256 bytes that is not interrupted and finds room publishes its message |
| `IpcLink.QuietRecv` | firmware/src/ipc/ipc_link.c:149-155 | a receive that is not interrupted delivers the oldest message if its buffer is large enough, and otherwise leaves it |
| `IpcLink.PushExactly` | firmware/src/ipc/ipc_ring.c:104-131 | a push succeeds if and only if the header is good, the bytes are there and there is room |
| `IpcLink.PopExactly` | firmware/src/ipc/ipc_ring.c:133-166 | which pops succeed, and that only a delivered message or one with a bad header leaves the ring |
| `IpcRingWrap.WrapRunBreaksFifo` | firmware/src/ipc/ipc_ring.c:7-11 | otherwise a concrete run delivers the last message of a burst in place of its first: a push landed on an unread slot |
| `IpcRingWrap.FifoExactly` | firmware/src/ipc/ipc_ring.c:104-166 | every interleaving with at most b slots in use is first-in first-out if and only if the slot count divides 2^16 or b is at most the remainder |
| `IpcRingWrap.UnboundedFifoExactly` | firmware/src/ipc/ipc_ring.c:104-166 | with no bound assumed: every interleaving is first-in first-out if and only if the slot count divides 2^16 |
| `IpcRingWrap.ShippedRingNeedsAtMost16` | firmware/include/ipc/ipc_msg.h:77 | the shipped ring of 60 slots is first-in first-out with at most 16 slots in use, and not with 17 |
| `IpcRingObject.PushQueue` | firmware/src/ipc/ipc_ring.c:120-130 | what a push does to the queue of unread slots, including the unread slot it replaces where the numbering jumps |
| `IpcRingObject.PopQueue` | firmware/src/ipc/ipc_ring.c:143-165 | a pop removes the oldest unread slot |
| `IpcRingObject.QueueIsUnread` | firmware/src/ipc/ipc_ring.c:33-36 | between the cores' steps the ring object's queue is the messages sent and not yet released |
| `IpcRingObject.Ring.Push` | firmware/src/ipc/ipc_ring.c:104-131 | result code and new queue of a push; nothing changes on an error |
| `IpcRingObject.Ring.Pop` | firmware/src/ipc/ipc_ring.c:133-166 | result code, message and new queue of a pop; a message with a bad header is dropped, one that does not fit stays |
| `CounterRing.PutView` | firmware/src/svc/audio_pipe.c:51-54 | storing at the write counter appends to the elements between the counters, when the slot numbering permits |
| `CounterRing.TakeView` | firmware/src/svc/audio_pipe.c:70-73 | reading at the read counter removes the oldest element |
| `AudioPath.Pipe.Push` | firmware/src/svc/audio_pipe.c:39-56 | as many bytes as there is room for are appended, in order, across any counter wrap, when no step of the other core comes between, as PipeQuiet.QuietPush says of the interleaved machine |
| `PipeSteps.StoreFresh` | firmware/src/svc/audio_pipe.c:51-54 | storing the next byte overwrites none that is not yet released |
| `PipeSteps.InterleavedFifo` | firmware/src/svc/audio_pipe.c:39-75 | over every interleaving of the two cores' single byte steps, what was popped is a prefix of what was pushed, byte for byte across any number of counter wraps |
| `PipeSteps.InterleavedLoss` | firmware/src/svc/audio_pipe.c:39-75 | over every interleaving, each pop that starts when an odd number of bytes can be had loses one byte and nothing else does; when there is none, what was decoded is the decoding of all that was popped |
| `PipeQuiet.ContentIsView` | firmware/src/svc/audio_pipe.c:17-23 | between the cores' steps the interleaved pipe holds the bytes that the pipe class says its buffer and counters hold |
| `PipeQuiet.QuietPush` | firmware/src/svc/audio_pipe.c:39-56 | a push that no step of the other core interrupts appends as many of its bytes as there is room for |
| `PipeQuiet.QuietPop` | firmware/src/svc/audio_pipe.c:58-75 | a pop that no step of the other core interrupts removes up to n bytes from the front, as one chunk |
| `PipeSteps.EvenPushOddReads` | firmware/src/svc/audio_pipe.c:51-54 | a run with an odd pop under InterleavedLoss: a push of two bytes is popped one byte at a time, so that both bytes arrive and their sample is lost |
| `AudioPath.Pipe.Pop` | firmware/src/svc/audio_pipe.c:58-75 | up to n bytes are removed from the front, when no step of the other core comes between, as PipeQuiet.QuietPop says of the interleaved machine |
| `AudioPath.Engine.QPush` | firmware/src/svc/audio_engine.c:287-298 | samples are appended until the queue is full; no unread one is overwritten |
| `AudioPath.Engine.QPopStereo` | firmware/src/svc/audio_engine.c:300-328 | whole frames leave the queue in order, mono samples doubled |
| `AudioPath.Engine.DecodePcm` | firmware/src/svc/audio_engine.c:381-394 | one chunk of the pipe is decoded and queued; nothing is dropped because fewer than two samples are left at each decode |
| `AudioPath.Engine.FillLoop` | firmware/src/svc/audio_engine.c:448-502 | over all rounds of the loop, the chunks read are a prefix of the pipe, each as long as it can be, and as many as the frames wanted, the samples queued and the bytes there before the call determine; samples delivered and queued are their decoding |
| `AudioPath.Engine.Fill` | firmware/src/svc/audio_engine.c:448-502 | the buffer is the delivered samples in stereo, scaled by the volume, then silence; an underrun means the pipe ran dry or the decode budget was used up; how much is read and delivered, and whether a byte is lost, is determined by what there was before the call |
| `AudioPath.OddExactly` | firmware/src/svc/audio_engine.c:381-394 | a series of full-length reads loses a byte exactly if the pipe held an odd number of bytes and was read empty |
| `AudioPath.ReadsUnique` | firmware/src/svc/audio_engine.c:448-502 | the rule of how many chunks a fill reads holds of one number only |
| `AudioPath.LossExactly` | firmware/src/svc/audio_engine.c:448-502 | a fill loses a byte if and only if the pipe held an odd number of bytes and the samples queued and in its whole chunks were fewer than the fill asked for |
| `AudioPath.BytesLost` | firmware/src/svc/audio_engine.c:381-394 | each odd read loses exactly one byte, so nothing is lost if and only if every read is even |
| `AudioSound.SampleIs` | firmware/src/svc/audio_engine.c:381-394 | a sample is two bytes, low byte first, in two's complement |
| `AudioSound.ScaleIs` | firmware/src/svc/audio_mix.c:37-55 | the volume makes so many percent of a sample, rounded towards zero |
| `AudioSound.Volumes` | firmware/src/svc/audio_mix.c:37-55 | silence at 0, the sample at 100, its half at 50 |
| `AudioSound.Heard` | firmware/src/svc/audio_engine.c:448-502 | every sample of a filled buffer: left and right from the samples in order, the same twice with one channel, at the volume, and silence behind the last |
| `AudioRuns.FillIsFilled` | firmware/src/svc/audio_engine.c:448-502 | what a fill promises is what the run machine computes from the state before it, so a run of the machine is a run of pushes and fills |
| `AudioRuns.RunsConserve` | firmware/src/svc/audio_engine.c:381-394 | over every run of pushes and fills each fill that finds an odd number of bytes and too few samples queued and in whole chunks loses one byte and nothing else does; without such a fill what was decoded and what is left are the decoding of all that was pushed; even pushes exclude it |
| `AudioRuns.OddPushMisaligns` | firmware/src/svc/audio_engine.c:381-394 | a run with an odd push after which a sample is put together from the wrong bytes |
| `PbWire.EncodeVarint32` | firmware/src/port/iotdev/iotdev_utils/iotdev_protobuf/nanopb/pb_encode.c:561-593 | the encoder on two 32-bit words fills its ten-byte buffer with the minimal base-128 form of the 64-bit number and never overruns it |
| `PbWire.Base128Length` | firmware/src/port/iotdev/iotdev_utils/iotdev_protobuf/nanopb/pb_encode.c:561-593 | a number takes at most n bytes if and only if it is below 128 to the n |
| `PbWire.Dec64Inverts` | firmware/src/port/iotdev/iotdev_utils/iotdev_protobuf/nanopb/pb_decode.c:238-258 | the 64-bit decoder gives back every 64-bit number from its encoding and reads exactly its bytes |
| `PbWire.Dec32Exactly` | firmware/src/port/iotdev/iotdev_utils/iotdev_protobuf/nanopb/pb_decode.c:170-230 | which numbers the 32-bit decoder accepts from a minimal encoding, exactly, and that it yields their low word |
| `PbWire.Dec32Means` | firmware/src/port/iotdev/iotdev_utils/iotdev_protobuf/nanopb/pb_decode.c:170-230 | it inverts the encoder below 2^32, gives the 32-bit pattern of a sign-extended negative number, and rejects everything from 2^32 up to 2^63 |
| `PbWire.ZigZagRoundTrip` | firmware/src/port/iotdev/iotdev_utils/iotdev_protobuf/nanopb/pb_decode.c:1345-1357 | zigzag and its inverse are inverse both ways over all 64-bit numbers; small numbers of either sign come out small |
| `PbWire.FixedRoundTrip` | firmware/src/port/iotdev/iotdev_utils/iotdev_protobuf/nanopb/pb_encode.c:624-649 | little-endian bytes give back the number |
| `PbWire.SkipsVarint` | firmware/src/port/iotdev/iotdev_utils/iotdev_protobuf/nanopb/pb_decode.c:261-270 | skipping a varint takes exactly its bytes |
| `PbStream.OStream.Write` | firmware/src/port/iotdev/iotdev_utils/iotdev_protobuf/nanopb/pb_encode.c:81-102 | a write succeeds if and only if it fits; then exactly its bytes are appended; nothing before the stream's window changes |
| `PbStream.OStream.WriteVarint` | firmware/src/port/iotdev/iotdev_utils/iotdev_protobuf/nanopb/pb_encode.c:595-611 | the same of a varint |
| `PbEncode.EncodeNumber` | firmware/src/port/iotdev/iotdev_utils/iotdev_protobuf/nanopb/pb_encode.c:753-831 | each number type is written in its wire form |
| `PbEncode.EncodePacked` | firmware/src/port/iotdev/iotdev_utils/iotdev_protobuf/nanopb/pb_encode.c:142-193 | a packed array is written behind its length, found by multiplication or by a measuring pass |
| `PbEncode.PackedSize` | firmware/src/port/iotdev/iotdev_utils/iotdev_protobuf/nanopb/pb_encode.c:148-169 | the measuring pass of a packed array gives the length the writing pass will take |
| `PbEncode.EncodeSubmessage` | firmware/src/port/iotdev/iotdev_utils/iotdev_protobuf/nanopb/pb_encode.c:701-749 | a submessage is measured, then written into a window of that size; the size check after the second pass cannot fail |
| `PbEncode.EncodedSize` | firmware/src/port/iotdev/iotdev_utils/iotdev_protobuf/nanopb/pb_encode.c:545-554 | the sizing pass reports exactly the length of what would be written |
| `PbEncode.EncodeField` | firmware/src/port/iotdev/iotdev_utils/iotdev_protobuf/nanopb/pb_encode.c:406-457 | an absent field is nothing, an array is packed if its type allows, each other value has its own tag |
| `PbEncode.Encode` | firmware/src/port/iotdev/iotdev_utils/iotdev_protobuf/nanopb/pb_encode.c:500-522 | encoding succeeds if and only if the message has an encoding and the stream has room; then exactly that encoding is written, whose bytes PbBytes.MessageIs gives in numbers |
| `PbBytes.Base128Is` | firmware/src/port/iotdev/iotdev_utils/iotdev_protobuf/nanopb/pb_encode.c:561-593 | a varint is groups of seven bits, the lowest first, with the top bit set on all but the last, and no more of them than needed |
| `PbBytes.MessageIs` | firmware/src/port/iotdev/iotdev_utils/iotdev_protobuf/nanopb/pb.h:376-381 | for every message: 8 tag + 0, 1, 2 or 5, then the number as a varint, eight or four bytes, or contents behind their length; signed numbers in two's complement of 64 bits or zigzag; arrays of numbers in one run |
| `PbBytes.NumberRead` | firmware/src/port/iotdev/iotdev_utils/iotdev_protobuf/nanopb/pb_decode.c:1409-1484 | of all 64-bit numbers a reader takes those that fit its storage, as they are, and refuses the others |
| `PbBytes.FixedRead` | firmware/src/port/iotdev/iotdev_utils/iotdev_protobuf/nanopb/pb_decode.c:1359-1407 | four or eight bytes are taken lowest first |
| `PbBytes.TextRead` | firmware/src/port/iotdev/iotdev_utils/iotdev_protobuf/nanopb/pb_decode.c:1511-1599 | which bytes, strings and fixed-length bytes fit, and what becomes of them |
| `PbReads.WrongWireType` | firmware/src/port/iotdev/iotdev_utils/iotdev_protobuf/nanopb/pb_decode.c:391-451 | a known field of another wire type is an error, but for an array of numbers that comes packed |
| `PbReads.FullArray` | firmware/src/port/iotdev/iotdev_utils/iotdev_protobuf/nanopb/pb_decode.c:502-515 | one more value for a full array is an error |
| `PbReads.OneMore` | firmware/src/port/iotdev/iotdev_utils/iotdev_protobuf/nanopb/pb_decode.c:453-539 | of a field that is no array the last value stays; an array takes one more |
| `PbReads.UnknownVarint` | firmware/src/port/iotdev/iotdev_utils/iotdev_protobuf/nanopb/pb_decode.c:261-270 | an unknown varint is passed over up to the byte whose top bit is clear |
| `PbReads.UnknownFixed` | firmware/src/port/iotdev/iotdev_utils/iotdev_protobuf/nanopb/pb_decode.c:303-313 | an unknown fixed number by its eight or four bytes |
| `PbReads.UnknownText` | firmware/src/port/iotdev/iotdev_utils/iotdev_protobuf/nanopb/pb_decode.c:272-284 | and unknown contents by their length |
| `PbReads.UnknownWireType` | firmware/src/port/iotdev/iotdev_utils/iotdev_protobuf/nanopb/pb_decode.c:303-313 | an unknown field of a wire type other than 0, 1, 2 and 5 is an error |
| `PbReads.TagZero` | firmware/src/port/iotdev/iotdev_utils/iotdev_protobuf/nanopb/pb_decode.c:1020-1038 | tag 0 is an error |
| `PbRequired.RequiredOccurs` | firmware/src/port/iotdev/iotdev_utils/iotdev_protobuf/nanopb/pb_decode.c:1113-1153 | whatever the bytes: a message in which one of the first 64 required fields never occurs is refused |
| `PbRequired.OlderWriterExactly` | firmware/src/port/iotdev/iotdev_utils/iotdev_protobuf/nanopb/pb_decode.c:1113-1153 | a message from a writer without one of the fields is read, with that field as it starts out, if and only if the field is not among the first 64 required ones |
| `PbRequired.StartsBlank` | firmware/src/port/iotdev/iotdev_utils/iotdev_protobuf/nanopb/pb_decode.c:873-987 | what a message starts out as |
| `PbCompat.EncodesExactly` | firmware/src/port/iotdev/iotdev_utils/iotdev_protobuf/nanopb/pb_encode.c:500-522 | a message has an encoding if and only if every text, byte string and array in it, at every depth, fits its storage |
| `PbRoundTrip.ValueInverts` | firmware/src/port/iotdev/iotdev_utils/iotdev_protobuf/nanopb/pb_decode.c:419-451 | every value comes back from its encoding, whatever follows it, and exactly its bytes are read |
| `PbRoundTrip.MessageInverts` | firmware/src/port/iotdev/iotdev_utils/iotdev_protobuf/nanopb/pb_decode.c:989-1156 | decoding what was encoded gives back every field of every message of every well-formed descriptor |
| `PbRoundTrip.RepeatedField` | firmware/src/port/iotdev/iotdev_utils/iotdev_protobuf/nanopb/pb_decode.c:502-515 | repeated occurrences append up to the array's capacity |
| `PbRoundTrip.PackedInverts` | firmware/src/port/iotdev/iotdev_utils/iotdev_protobuf/nanopb/pb_decode.c:471-501 | a packed array comes back and its window is read to the end |
| `PbCompat.SkipsValue` | firmware/src/port/iotdev/iotdev_utils/iotdev_protobuf/nanopb/pb_decode.c:303-313 | skipping an unknown field consumes exactly the bytes of its value |
| `PbCompat.OlderReaderReads` | firmware/src/port/iotdev/iotdev_utils/iotdev_protobuf/nanopb/pb_decode.c:1040-1069 | a reader whose descriptor lacks one of the fields reads the message without that field |
| `PbInput.IStream.ReadVarint32` | firmware/src/port/iotdev/iotdev_utils/iotdev_protobuf/nanopb/pb_decode.c:170-235 | the loop computes the 32-bit decoder's value and position |
| `PbInput.IStream.ReadVarint` | firmware/src/port/iotdev/iotdev_utils/iotdev_protobuf/nanopb/pb_decode.c:238-258 | the loop computes the 64-bit decoder's value and position |
| `PbInput.IStream.OpenFrame` | firmware/src/port/iotdev/iotdev_utils/iotdev_protobuf/nanopb/pb_decode.c:357-385 | a length-delimited part becomes a stream of its own and the outer stream moves past it |
| `PbInput.IStream.SkipField` | firmware/src/port/iotdev/iotdev_utils/iotdev_protobuf/nanopb/pb_decode.c:261-313 | each wire type is skipped as specified, the unknown ones are errors |
| `PbDecode.DecodeNumber` | firmware/src/port/iotdev/iotdev_utils/iotdev_protobuf/nanopb/pb_decode.c:1409-1509 | numbers are read and checked against their storage |
| `PbDecode.DecodeText` | firmware/src/port/iotdev/iotdev_utils/iotdev_protobuf/nanopb/pb_decode.c:1511-1599 | strings, bytes and fixed-length bytes are read and checked against their storage |
| `PbDecode.DecodePacked` | firmware/src/port/iotdev/iotdev_utils/iotdev_protobuf/nanopb/pb_decode.c:471-501 | a packed array is read to the end of its window or refused |
| `PbDecode.DecodeField` | firmware/src/port/iotdev/iotdev_utils/iotdev_protobuf/nanopb/pb_decode.c:453-539 | what one occurrence of a field does to its values |
| `PbDecode.CheckRequired` | firmware/src/port/iotdev/iotdev_utils/iotdev_protobuf/nanopb/pb_decode.c:1113-1153 | the bitfield check passes if and only if every watched required field was seen |
| `PbDecode.DecodeOne` | firmware/src/port/iotdev/iotdev_utils/iotdev_protobuf/nanopb/pb_decode.c:1014-1104 | one pass of the loop: a known field is read into the message, an unknown one skipped |
| `PbDecode.Decode` | firmware/src/port/iotdev/iotdev_utils/iotdev_protobuf/nanopb/pb_decode.c:989-1156 | for every input the method's result is the decoding it is specified to be, and on success the stream is consumed exactly |
| `PbLayout.LoadInverts` | firmware/src/port/iotdev/iotdev_utils/iotdev_protobuf/nanopb/pb_common.c:8-54 | loading a field's words gives back the descriptor they were packed from, in all four formats |
| `PbLayout.HeadReads` | firmware/src/port/iotdev/iotdev_utils/iotdev_protobuf/nanopb/pb_common.c:132-142 | the first word alone gives format, type and the low tag bits |
| `PbIter.FieldAt` | firmware/src/port/iotdev/iotdev_utils/iotdev_protobuf/nanopb/pb_common.c:8-16 | the words of field i are where the prefix sum of the lengths before it says |
| `PbIter.FieldIter.Advance` | firmware/src/port/iotdev/iotdev_utils/iotdev_protobuf/nanopb/pb_common.c:118-154 | one step keeps word, required and submessage index equal to the sums over the fields before, also when it wraps |
| `PbIter.FieldIter.Next` | firmware/src/port/iotdev/iotdev_utils/iotdev_protobuf/nanopb/pb_common.c:188-193 | next loads the next field and says whether it wrapped |
| `PbIter.FieldIter.Find` | firmware/src/port/iotdev/iotdev_utils/iotdev_protobuf/nanopb/pb_common.c:195-232 | from any position the search ends, finds the tag if and only if the current field or some non-extension field carries it, and otherwise is back where it began |
| `Scaler.ContainFits` | firmware/src/svc/media_image.c:57-92 | the fitted rectangle lies in the canvas, touches it in at least one dimension and is centred; the late clamps are redundant |
| `Scaler.ContainKeepsAspect` | firmware/src/svc/media_image.c:57-92 | one side of the rectangle is the canvas side, and the other is the largest that keeps the aspect ratio, or 1 |
| `Scaler.GatherIsLastWriter` | firmware/src/svc/media_image.c:112-128 | in one dimension the last source coordinate to paint x is ((x + 1) * n - 1) / d, up- and down-scaling alike |
| `Scaler.Image.PutScaled` | firmware/src/svc/media_image.c:94-129 | one source pixel paints exactly the box it covers |
| `Scaler.PutAdvances` | firmware/src/svc/media_image.c:94-129 | painting the next source pixel in raster order advances the picture drawn so far |
| `Scaler.RasterIsGather` | firmware/src/svc/media_bmp.c:63-71 | after the raster-order loop each pixel of the rectangle holds its gather source pixel and all others are unchanged |
| `Bmp.PixelInFile` | firmware/src/svc/media_bmp.c:46-71 | every byte the loop reads is inside an accepted file |
| `Bmp.Decode` | firmware/src/svc/media_bmp.c:12-73 | an accepted file shows its picture, rows bottom-up or top-down, a rejected one leaves the canvas alone |
| `BmpPicture.ParseIs` | firmware/src/svc/media_bmp.c:12-62 | which files are accepted, the error for the others, and the layout, from the numbers in the header |
| `BmpPicture.PixelIs` | firmware/src/svc/media_bmp.c:63-71 | every pixel of the picture from three bytes of the file, blue, green and red, rows bottom first unless the height is negative |
| `Huffman.DecodeInverts` | firmware/src/svc/vendor/puff/puff.c:263-305 | decoding gives back every symbol from its canonical code, whatever follows, and takes exactly the bits of the code |
| `Huffman.DecodesExactly` | firmware/src/svc/vendor/puff/puff.c:263-305 | a symbol is decoded if and only if the bits begin with its code; a complete code never fails on bits enough |
| `Huffman.CompleteExactly` | firmware/src/svc/vendor/puff/puff.c:312-320 | decoding never fails for want of a code if and only if no string of the greatest length is left over |
| `HuffmanOrder.NextOfLength` | firmware/src/svc/vendor/puff/puff.c:324-339 | codes of a length are consecutive in the order of their symbols |
| `HuffmanOrder.ShortestFirst` | firmware/src/svc/vendor/puff/puff.c:225-228 | the shortest length begins with zeros |
| `HuffmanOrder.NextLengthFollows` | firmware/src/svc/vendor/puff/puff.c:225-228 | the next length in use goes on behind the last code, filled up with zeros |
| `HuffmanOrder.BitAt` | firmware/src/svc/vendor/puff/puff.c:115-124 | the bits of a byte are read from the lowest on |
| `HuffmanKraft.CanonicalPrefixFree` | firmware/src/svc/vendor/puff/puff.c:324-339 | no symbol's code begins another's |
| `HuffmanKraft.PrefixCodeFits` | firmware/src/svc/vendor/puff/puff.c:355-363 | Kraft's inequality: the count of codes left never goes negative for the lengths of any prefix code |
| `HuffmanKraft.FitsExactly` | firmware/src/svc/vendor/puff/puff.c:355-363 | the lengths are accepted if and only if there is a prefix code with these lengths |
| `HuffmanTable.Codebook.Construct` | firmware/src/svc/vendor/puff/puff.c:340-379 | the lengths are refused if and only if at some length there are more codes than room; otherwise the table is the one of these lengths, and the result is the number of strings left over, but 0 when there are no codes |
| `HuffmanTable.ZeroMeansComplete` | firmware/src/svc/vendor/puff/puff.c:312-320 | the promise that a result of 0 means decoding cannot fail holds if and only if there is a code at all; without one decoding always fails |
| `Puff.State.Bits` | firmware/src/svc/vendor/puff/puff.c:126-145 | as many bits as asked for come back as a number, lowest first, and are gone from the stream; nothing comes back if and only if the input has too few |
| `Puff.TableIsSound` | firmware/src/svc/vendor/puff/puff.c:263-305 | with the table of any lengths every access of a decoder is in bounds |
| `Puff.State.DecodeSlow` | firmware/src/svc/vendor/puff/puff.c:235-255 | the plain decoder decodes the bits ahead and takes exactly those of the code |
| `Puff.State.Decode` | firmware/src/svc/vendor/puff/puff.c:263-305 | the fast decoder does the same over bytes, with what is left of the last byte in the bit buffer |
| `PngFilter.Paeth` | firmware/src/svc/media_png.c:37-59 | the predictor picks the neighbour nearest to the estimate, ties in order left, above, upper-left (PNG specification, section 9.4) |
| `PngFilter.UnfilterInvertsFilter` | firmware/src/svc/media_png.c:61-79 | restoring inverts filtering for every filter type, row, row above and pixel size |
| `PngFilter.FilterInvertsUnfilter` | firmware/src/svc/media_png.c:61-79 | and filtering inverts restoring |
| `PngFilter.UnfilterRow` | firmware/src/svc/media_png.c:61-79 | the loop that rewrites a row over itself computes the restored row, of which PngFilter.RestoredByte says what every byte is |
| `PngFilter.RestoredByte` | firmware/src/svc/media_png.c:64-78 | each restored byte is the stored one plus nothing, the byte to the left, the one above, half their sum or the Paeth value, modulo 256, as the filter type says |
| `Png.Blit` | firmware/src/svc/media_png.c:153-185 | all rows are restored in place and drawn, or the exact error is reported |
| `Png.RestoredIsOriginal` | firmware/src/svc/media_png.c:153-185 | whatever filter types an encoder chose, every restored row is the original row |
| `Png.PictureIsOriginal` | firmware/src/svc/media_png.c:153-185 | so such rows are accepted and the picture is the original one |
| `PngPicture.RowIs` | firmware/src/svc/media_png.c:167-174 | the same of every row of a picture, from where its bytes lie |
| `PngPicture.ColourIs` | firmware/src/svc/media_png.c:81-105 | every pixel shown from its restored bytes, for each colour type |
| `Emmc.PlanIsGood` | firmware/src/bsp/stm32h745i_disco/emmc.c:349-363 | each pass moves an aligned stretch of 8 to 64 sectors that contains the next part of the request, makes progress and stays in the request's aligned hull |
| `Emmc.WriteBack` | firmware/src/bsp/stm32h745i_disco/emmc.c:359-374 | writing back a bounce buffer with the request copied in changes only the request's sectors |
| `Emmc.Card.DiskRead` | firmware/src/bsp/stm32h745i_disco/emmc.c:303-339 | on success the buffer is exactly the requested sectors, and the card is unchanged on any outcome |
| `Emmc.Card.DiskWrite` | firmware/src/bsp/stm32h745i_disco/emmc.c:341-376 | on success exactly the requested sectors are the buffer; on any outcome every other sector is unchanged and the written ones are a prefix |
| `Utf8.TextIsWellFormed` | firmware/src/svc/text_view.c:67-128 | the length and validity checks accept exactly the byte sequences of the grammar in section 4 of RFC 3629 |
| `TextPages.WindowIsWellFormed` | firmware/src/svc/text_view.c:226-266 | whatever bytes a file holds, the text of a window is well-formed and no longer than the window |
| `TextPages.ScanOfText` | firmware/src/svc/text_view.c:180-224 | on well-formed input a window ends between characters and shows its bytes with line ends normalized |
| `TextShown.ScanIsDisplay` | firmware/src/svc/text_view.c:180-224 | for any bytes, what a window shows by the grammar: characters, LF for line ends, a question mark for each byte that starts no character |
| `TextShown.WindowIs` | firmware/src/svc/text_view.c:226-266 | a window is 32768 bytes, from the next byte that may start a character |
| `TextShown.StretchShown` | firmware/src/svc/text_view.c:197-216 | where no character starts there are as many question marks as bytes |
| `TextShown.TailShown` | firmware/src/svc/text_view.c:204-211 | the rest of the file is one question mark if and only if the byte there promises more bytes than are left, or is the last |
| `TextShown.TailHidesLetter` | firmware/src/svc/text_view.c:204-211 | a file whose last letter is not shown, behind a character that is cut short |
| `TextPages.WindowOfText` | firmware/src/svc/text_view.c:226-266 | on well-formed input a window ends where the bytes say: a window length on, or before the character that lies there |
| `TextPages.PagesTile` | firmware/src/svc/text_view.c:344-363 | paging forward covers the file with no gap or overlap, always progresses, and starts and ends every page between characters |
| `TextPages.PagesArePaging` | firmware/src/svc/text_view.c:344-363 | the page list is what repeated paging forward shows |
| `TextPages.ShownIsFileExactly` | firmware/src/svc/text_view.c:344-363 | the pages put together are the file if and only if the file has no CR |
| `TextPages.ShownIsNormalizedExactly` | firmware/src/svc/text_view.c:344-363 | the pages put together are the file with line ends normalized if and only if no cut, as computed from the bytes, lies between a CR and its LF; each one that does is one line end too many |
| `TextPages.CutLineEndShown` | firmware/src/svc/text_view.c:190-197 | a file of letters with a CR and its LF around the first cut, which is not shown normalized |
| `TextPages.BackThenForward` | firmware/src/svc/text_view.c:344-363 | paging back then forward returns to the offset if and only if it is not the end of the file and it is at least a window length or is where the first page is cut; from the end of the file it never does |
| `TextPages.PagingMoves` | firmware/src/svc/text_view.c:344-363 | a file and a run of pagings in which back and forward ends one byte on |
| `TextViewer.Viewer.EmitSeq` | firmware/src/svc/text_view.c:180-224 | one step of the emit loop writes what the bytes show and never passes the bytes consumed |
| `TextViewer.Viewer.LoadWindow` | firmware/src/svc/text_view.c:226-266 | the buffer holds the window's text, zero-terminated within its size, for arbitrary bytes |
| `TextViewer.Viewer.Page` | firmware/src/svc/text_view.c:344-363 | paging moves to the next or previous window and stays put at the ends |
| `Calendar.DateUnique` | firmware/src/svc/time.c:91-133 | a day number belongs to one date only |
| `Calendar.EraIsDayNumber` | firmware/src/port/iotdev/zb_port_time.c:7-29 | the era formula counts the same days as counting leap years one by one |
| `Calendar.CivilToUnixIsExact` | firmware/src/port/iotdev/zb_port_time.c:7-29 | the closed form gives the seconds since 1970 modulo 2^32 |
| `Calendar.WeekdayIsExact` | firmware/src/svc/time.c:77-89 | the formula gives the weekday, (days since 1970 + 4) mod 7, if and only if the date is not in January or February of year 0 |
| `Clock.UnixToCivil` | firmware/src/svc/time.c:91-133 | the year and month loops give a valid date, the right second of the day and the right weekday, for every 32-bit time |
| `Clock.UnixRoundTrip` | firmware/src/port/iotdev/zb_port_time.c:7-29 | counting up from 1970 and then applying the closed form gives every 32-bit time back |
| `Clock.CivilRoundTrip` | firmware/src/port/iotdev/zb_port_time.c:7-29 | and conversely for every valid date whose seconds fit 32 bits |
| `Clock.Date.AddDays` | firmware/src/svc/time.c:36-59 | the month-by-month advance reaches the date whose day number is n larger, modulo the days of all 16-bit years, also from impossible dates |
| `Clock.AddDaysIsExact` | firmware/src/svc/time.c:36-59 | it is exactly n larger if and only if the year stays within 16 bits |
| `AutoRules.BestDue` | firmware/src/svc/auto.c:536-541 | the entry taken is due, no due entry is due earlier, and none is taken only if none is due |
| `AutoPending.QueueAppends` | firmware/src/svc/auto.c:262-278 | an action is stored behind what is pending for its target, if there is room; other targets are untouched |
| `AutoPending.FiringReplaces` | firmware/src/svc/auto.c:280-296 | after a firing its target's pending actions are exactly what the rule wants, as far as the table has room: never an OFF without its ON |
| `AutoPending.PendingOverRuns` | firmware/src/svc/auto.c:251-296 | over every run, what is pending for a target comes from its single latest firing: one action, or an ON and its OFF; in a run in which the clock does not wrap the OFF is due later |
| `AutoEdges.LogsOnlyWatch` | firmware/src/svc/auto.c:506-525 | recording what rules see changes nothing about what they do |
| `AutoEdges.RemoveKeeps` | firmware/src/svc/auto.c:453-473 | removing a rule moves the latches of the rules behind it together with them |
| `AutoEdges.FiresAtRisingEdges` | firmware/src/svc/auto.c:298-328 | over every run and for each rule: of the events of its device that it met while enabled, it fired exactly at those with the device on, or its level above the rule's, that followed one without |
| `AutoEdges.FiresAtTheMinute` | firmware/src/svc/auto.c:384-412 | and of the minutes at which it met the clock, exactly at its own that followed another |
| `AutoEdges.EnabledAsTold` | firmware/src/svc/auto.c:438-451 | rules stay as they were added, but for being enabled, which is as they were last told |
| `AutoFirings.PendingIsAskedFor` | firmware/src/svc/auto.c:251-296 | over every run, rules fire only where the logs show it, and every pending action is one that its firing asked for, due at once or after the delay on the 32-bit clock |
| `AutoFirings.StoppedLeavesNothing` | firmware/src/svc/auto.c:438-473 | nothing is pending for a rule's target after the rule is disabled or removed |
| `AutoNumbers.NumbersAreFresh` | firmware/src/svc/auto.c:414-436 | over every run in which no rule got number 65535, a rule added without a number gets one that no other has |
| `AutoNumbers.LastNumberExactly` | firmware/src/svc/auto.c:426-430 | and after one more rule, if and only if that does not get number 65535 |
| `AutoNumbers.DrainByTheClock` | firmware/src/svc/auto.c:527-551 | a drain delivers what was pending and due by the clock and leaves the rest where it was |
| `AutoDrain.DrainDelivers` | firmware/src/svc/auto.c:527-551 | taking until nothing is due delivers every due action once and leaves exactly the others |
| `AutoDrain.DrainSorted` | firmware/src/svc/auto.c:527-551 | actions are delivered in nondecreasing due time |
| `AutoDrain.OnBeforeOff` | firmware/src/svc/auto.c:527-551 | after every run, two actions drained together for one target are the ON and the OFF of its single latest firing; in a run in which the clock does not wrap the ON is delivered first |
| `AutoDrain.OffFirstExactly` | firmware/src/svc/auto.c:280-296 | when a rule with a delayed OFF fires with room for both, the OFF is delivered before the ON if and only if the clock wraps between them; then nothing is left pending for the target, otherwise the OFF is |
| `AutoDrain.WrapRunLeavesOn` | firmware/src/svc/auto.c:384-412 | a run, a rule added, a poll to the last millisecond, an event, after which the target last hears ON and nothing is pending |
| `AutoEngine.Engine.CancelPending` | firmware/src/svc/auto.c:251-260 | every pending action for the target is cleared, no other |
| `AutoEngine.Engine.QueueAct` | firmware/src/svc/auto.c:262-278 | the action goes to the first free entry, or is refused |
| `AutoEngine.Engine.Eval` | firmware/src/svc/auto.c:506-525 | the loop over the parallel arrays does what the machine says of an event, which AutoEdges.FiresAtRisingEdges says in terms of events |
| `AutoEngine.Engine.Poll` | firmware/src/svc/auto.c:384-412 | and of a clock poll |
| `AutoEngine.Engine.Add` | firmware/src/svc/auto.c:414-436 | adding a rule, with the numbering of new rules |
| `AutoEngine.Engine.SetEnabled` | firmware/src/svc/auto.c:438-451 | enabling; disabling cancels what is pending for the rule's target |
| `AutoEngine.Engine.Remove` | firmware/src/svc/auto.c:453-473 | removing a rule shifts all three arrays together |
| `AutoEngine.Engine.Take` | firmware/src/svc/auto.c:527-551 | the scan takes the due action with the smallest due time, the last of several |
| `HomeDevices.HexInjective` | firmware/src/svc/home.c:36-53 | different addresses print differently |
| `HomeDevices.HexMeans` | firmware/src/svc/home.c:36-53 | an address prints as its digits to the base 16, 0 to 9 and a to f, the highest first |
| `HomeDevices.AddressReachesExactly` | firmware/src/svc/home.c:84-103 | a command sent to a printed address reaches the device with that address if and only if no device before it carries the address as its name |
| `HomeDevices.NameCapturesAddress` | firmware/src/svc/home.c:70-82 | a device named like another's address takes that device's commands |
| `HomeDevices.ApplyAllPerDevice` | firmware/src/svc/home.c:130-154 | a list of actions leaves a device as the actions aimed at it say, in their order, if no name makes one of them reach another device than its address says; sensors and a network without radio keep their state |
| `HomeLoop.Home.NotifyAt` | firmware/src/svc/home.c:105-120 | a changed device is shown to the rules unless a due action is being applied |
| `HomeLoop.Home.Command` | firmware/src/svc/home.c:292-324 | a command takes effect, or reports why not and changes nothing |
| `HomeLoop.Home.ApplyDue` | firmware/src/svc/home.c:130-154 | the drain ends, each round freeing one pending entry, and leaves rules and devices as the drain of the machine says |
| `HomeLoop.Home.Poll` | firmware/src/svc/home.c:180-192 | one turn of the home loop is a clock poll and a drain |
| `HomeLoop.DrainedMeans` | firmware/src/svc/home.c:130-154 | what a turn leaves: nothing due, everything else where it was, a device as its due actions made it, earliest first, if no name diverts one of them from or to it |
| `HomeRuns.DevicesAsSwitched` | firmware/src/svc/home.c:292-324 | over every run of commands and turns a device is on as it was last switched, at the level last given, and the rules are shown, of every command that takes effect and of nothing else, the device on or off as commanded, with its level |
| `Chip8Sprites.AtInverts` | firmware/src/game/chip8.c:243-254 | each dot of a sprite lands on one pixel and different dots on different pixels, around the edges |
| `Chip8Sprites.PutDot` | firmware/src/game/chip8.c:246-254 | a set dot flips one pixel that no earlier dot touched, and the flag records a lit one |
| `Chip8Sprites.DrawTwiceExactly` | firmware/src/game/chip8.c:231-258 | drawing twice restores the screen if and only if the second drawing is at the same place, which a coordinate in register 15 may prevent, or the sprite has no dots |
| `Chip8Sprites.DrawTwiceFlags` | firmware/src/game/chip8.c:231-258 | the flag is set exactly when a lit pixel was hit; the second time at the same place, when a dark one was; nothing but the flag is left changed |
| `Chip8Sprites.FlagCoordinateMoves` | firmware/src/game/chip8.c:231-258 | a state in which a dot is not drawn away when register 15 gives its column, nor when it gives its row |
| `Chip8Laws.TimeLaw` | firmware/src/game/chip8.c:326-354 | instructions run are so many for each whole 16 ms of the clipped time played, 20 as shipped, however it was cut into ticks |
| `Chip8Laws.TimersCountDown` | firmware/src/game/chip8.c:336-345 | and both timers count down by one, to zero |
| `Chip8Laws.LoadIs` | firmware/src/game/chip8.c:58-90 | where cartridge and font are loaded, and which cartridges are refused |
| `Chip8Laws.PressIs` | firmware/src/game/chip8.c:375-398 | a key is down exactly if it is the one pressed |
| `Chip8Laws.HaltedForever` | firmware/src/game/chip8.c:126-128 | a program counter outside memory never comes back |
| `Chip8Laws.WaitingHolds` | firmware/src/game/chip8.c:271-285 | waiting for a key changes nothing while no key is down |
| `Chip8Laws.CallReturns` | firmware/src/game/chip8.c:139-154 | a subroutine that comes to its return at the level it started on returns behind its call, whatever it did |
| `Chip8Laws.CallReturnExactly` | firmware/src/game/chip8.c:139-154 | a call directly followed by a return is back on its level if and only if the stack had room |
| `Chip8Laws.FlagCompletesSum` | firmware/src/game/chip8.c:190-195 | for all registers, exactly when flag and result together hold the exact sum |
| `Chip8Laws.FlagCompletesDifference` | firmware/src/game/chip8.c:196-207 | for all registers, exactly when flag and result together hold the exact difference, either way round |
| `Chip8Laws.FlagCompletesShift` | firmware/src/game/chip8.c:200-211 | for all registers, exactly when flag and result together hold the number shifted |
| `Chip8Laws.DecimalDigits` | firmware/src/game/chip8.c:298-304 | the three bytes stored are the decimal digits |
| `Chip8Laws.StoreThenFetch` | firmware/src/game/chip8.c:305-317 | registers stored and fetched again come back as far as memory reaches |
| `Chip8.Chip.OpStep` | firmware/src/game/chip8.c:116-324 | for every program and state one instruction does what the machine says, with every memory, stack, key and screen access in bounds; Chip8Steps says what that is from the two bytes of each instruction |
| `Chip8Steps.SkipsIfEqual` | firmware/src/game/chip8.c:155-159 | 3xkk goes on four bytes further if the register equals the byte, and two otherwise; nothing else changes |
| `Chip8Steps.SkipsUnlessEqual` | firmware/src/game/chip8.c:160-164 | 4xkk the other way round |
| `Chip8Steps.ComparesRegisters` | firmware/src/game/chip8.c:165-220 | 5xy0 and 9xy0 of two registers |
| `Chip8Steps.LooksAtKeys` | firmware/src/game/chip8.c:259-265 | Ex9E and ExA1 of a key |
| `Chip8Steps.Jumps` | firmware/src/game/chip8.c:138-154 | 1nnn, Bnnn, 2nnn and 00EE |
| `Chip8Steps.Clears` | firmware/src/game/chip8.c:138-140 | 00E0 |
| `Chip8Steps.Loads` | firmware/src/game/chip8.c:170-175 | 6xkk, 7xkk and Annn |
| `Chip8Steps.Combines` | firmware/src/game/chip8.c:176-189 | 8xy0 to 8xy3 |
| `Chip8Steps.Calculates` | firmware/src/game/chip8.c:190-215 | 8xy4 to 8xyE |
| `Chip8Steps.Draws` | firmware/src/game/chip8.c:227-230 | Cxkk |
| `Chip8Steps.DrawsSprite` | firmware/src/game/chip8.c:231-258 | Dxyn, pixel by pixel from the bytes at the address register |
| `Chip8Steps.Moves` | firmware/src/game/chip8.c:266-297 | Fx07, Fx15, Fx18, Fx1E and Fx29 |
| `Chip8Steps.WaitsForAKey` | firmware/src/game/chip8.c:271-285 | Fx0A |
| `Chip8Steps.StoresDigits` | firmware/src/game/chip8.c:298-304 | Fx33 |
| `Chip8Steps.Stores` | firmware/src/game/chip8.c:305-310 | Fx55 |
| `Chip8Steps.Fetches` | firmware/src/game/chip8.c:311-317 | Fx65 |
| `Chip8Steps.PassesOver` | firmware/src/game/chip8.c:317-323 | all other words |
| `Chip8Steps.LoadThenCompare` | firmware/src/game/chip8.c:155-172 | 6xkk and then 3xkk always skips, and 6xkk and then 4xkk never does |
| `Chip8Steps.AddThenTakeAway` | firmware/src/game/chip8.c:173-175 | 7xkk and then 7x with the rest to 256 restores the register |
| `Chip8.Chip.ExecDraw` | firmware/src/game/chip8.c:231-258 | the two loops draw the sprite the machine describes by pixels |
| `Chip8.Chip.Tick` | firmware/src/game/chip8.c:326-354 | a tick saves its clipped time and runs whole frames |
| `Chip8.Chip.Press` | firmware/src/game/chip8.c:375-398 | at most one key is held |
| `Chip8.Chip.Load` | firmware/src/game/chip8.c:75-90 | a cartridge is loaded into a cleared machine with the font, or refused |
| `PathSpec.SpelledPasses` | firmware/src/svc/vfs_path.c:20-68 | the character scan passes a path of good segments if and only if it fits, and otherwise reports that there is no room |
| `PathSpec.CheckExactly` | firmware/src/svc/vfs_path.c:20-68 | the scan and prefix check accept exactly the paths of the user area, as a list of segments none of which is empty or "..", that fit the buffer |
| `VfsPath.Normalize` | firmware/src/svc/vfs_path.c:20-68 | an accepted path is copied unchanged |
| `VfsPath.Join` | firmware/src/svc/vfs_path.c:105-145 | result code and text of a join |
| `VfsPath.ParentPath` | firmware/src/svc/vfs_path.c:147-181 | result code and text of a parent |
| `VfsPath.JoinExactly` | firmware/src/svc/vfs_path.c:105-145 | a name joined to a directory is accepted if and only if it is a good segment other than "." and the result fits both buffers; the result is the directory's segments and the name |
| `VfsPath.JoinStaysInside` | firmware/src/svc/vfs_path.c:105-145 | a join never leaves the user area, whatever directory and name are given |
| `VfsPath.ParentExactly` | firmware/src/svc/vfs_path.c:147-181 | the parent drops the last segment or the trailing slash; only the root of the user area has none; a path or parent too long for its buffer is refused |
| `VfsPath.ParentOfJoin` | firmware/src/svc/vfs_path.c:105-181 | the parent of a join is the directory without its trailing slash |
| `FilesNav.EnterAdds` | firmware/src/app/files.c:213-229 | entering adds a segment exactly when the name joins and the stack has room |
| `FilesNav.BackDrops` | firmware/src/app/files.c:246-263 | going back below the root always works and drops the last segment |
| `FilesNav.RunStaysAt` | firmware/src/app/files.c:203-263 | over every run the current directory is in the user area with one segment for each level of depth, a scroll position noted behind the stack being taken to change nothing |
| `FilesNav.BackUndoesEnter` | firmware/src/app/files.c:203-263 | whatever is done below a directory once entered, going back from its level restores directory and scroll position, a scroll position noted behind the stack being taken to change nothing |
| `FilesNav.OpenStaysInsideExactly` | firmware/src/app/files.c:236 | opening a file notes its scroll position inside the stack if and only if the current directory lies fewer than eight segments below the root |
| `FilesNav.RunStaysInsideExactly` | firmware/src/app/files.c:203-275 | over every run from the root, a scroll position is noted outside the stack exactly at the files opened, from a row or from the prompt, where the path has more than eight slashes |
| `FilesNav.FullStackReached` | firmware/src/app/files.c:236 | there are such runs |
| `Files.Browser.OnRow` | firmware/src/app/files.c:203-244 | what choosing a row does, with the path handed to the application or kept for the prompt |
| `Files.Browser.PromptOpenText` | firmware/src/app/files.c:265-274 | the file of the prompt is opened as a text, with the same note of the scroll position |
| `Files.Browser.GoBack` | firmware/src/app/files.c:246-263 | going back does what the machine says |

## Left out

- Register-level drivers, DMA and cache maintenance, FatFs, FreeRTOS, lwIP and LVGL: foreign effects or presentation.
- Memory ordering weaker than one atomic step for each index access; reopening a link or resetting a pipe while the other core is active.
- Heartbeats, kick counters and shared-memory formatting of the link: straight-line bookkeeping beside the ring.
- MP3 decoding, the tone sequencer, pausing and end-of-stream accounting of the audio engine: only the PCM branch is modelled.
- nanopb callbacks, extensions, oneofs, fixed-count arrays, pointer fields, float conversion, UTF-8 validation (off in this build) and error message texts.
- nanopb proto3 singular fields (optional without a has flag) and default values stored in a descriptor: every default here is zero or empty.
- nanopb decode flags: messages behind a length or ended by a zero tag; a zero tag is an error here.
- nanopb memory layout: a message is a value, so what a failed decode leaves behind in the structure is not described; offsets in a descriptor are carried but not used.
- nanopb sizes of 4 GiB and more: stream counters are unbounded here, and a submessage's length is required to fit 32 bits.
- nanopb 8-bit `uint_fast8_t`: bit positions do not wrap, as on the target, where the type has 32 bits.
- nanopb bit operations: the model uses arithmetic where the source uses masks and shifts.
- JPEG, PNG chunk parsing and palette loading: PNG starts from the inflated rows; clearing the canvas before a picture.
- Inflation beyond reading bits, building code tables and decoding symbols: block headers, stored blocks, the code-length code and copying from a distance back.
- Puff.State.Decode: how much input is used up when decoding fails is not stated, nor the state when the input ends.
- Puff.State.DecodeSlow: the same.
- Bmp.PixelInFile: as Bmp.Decode, of files accepted by a header check that does not wrap.
- BmpPicture.ParseIs: the same.
- BmpPicture.PixelIs: the same.
- Bmp.Decode: files within 64 MiB of 4 GiB are not considered: there the 32-bit sum of the header check can wrap.
- Retry and wait loops below the eMMC transfers, and cache calls around them: a transfer fails or not by an oracle, possibly after moving some sectors.
- Emmc.Card.DiskWrite: success is promised only for requests on a card whose size is a multiple of 8 sectors and whose transfers do not fail; the size of the card is not checked by the code.
- File input errors of the text viewer, its progress and name display: a file is a byte sequence.
- Clock.Date.AddDays: year, month and day are one value here, three fields in the source.
- NTP, the RTC, time-of-day advance and clock states of the time service.
- Persisting rules and devices, rule access by position, the random motion rule seeded at start.
- The change callback is assumed not to call back into the rules or the devices; commands are not sent over a radio, and the time a device was last seen is not kept.
- The network side of the device table: joining, interviews, reports; the table is given and its addresses differ.
- CHIP-8 drawing to the display, the game phase, the keypad geometry, the retained copy of the cartridge, and the wait flag, which nothing reads.
- `vfs_jail_rel`, mounting, directory reading and the sorting of rows: a listing is what the file system gives, in the order shown.
- Files.Browser.OnRow: the path and kind of a row come with the listing; what the prompt shows is not kept; a scroll position noted behind the end of the stack is counted, and what it overwrites is not modelled.
- Files.Browser.PromptOpenText: as Files.Browser.OnRow, what a scroll position noted behind the end of the stack overwrites is not modelled; the write is counted.
- FilesNav.RunStaysAt: a scroll position noted behind the end of the stack is taken to change nothing; in the source the depth is declared right behind the stack.
- FilesNav.BackUndoesEnter: the same.
- HomeDevices.ApplyAllPerDevice: says nothing of lists in which a name diverts an action from or to the device; HomeDevices.AddressReachesExactly says when one does.
- HomeLoop.DrainedMeans: says nothing of a device from or to which a name diverts a due action.
- Checks of pointers against NULL, except where a missing buffer is an input the code answers with an error.
