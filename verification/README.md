# A verified model of the sylar server framework

The project models four parts of the framework that keep state, and proves what holds over all
their inputs, runs and interleavings.

**The byte array and its codecs.** `ByteArray.dfy` keeps the linked list of chunks, the cursor
`m_cur` and the counters in place, as `sylar/bytearray.cc` does, and proves every operation
equal to one on a flat buffer (`FlatBuffer.dfy`): memory, position, size, capacity. On top of it
stand the typed writes and reads (`Varint`, `FixedInt`, `Items`, `Codec`), the messages
(`Protocol`), the socket stream with its partial transfers (`Streams`) and the frames of the rock
protocol (`Rock`), up to one end-to-end theorem: a message sent and received arrives, except in
one family of cases that is named exactly. Machine words are natural numbers; `Bits.dfy` defines
the C++ bit operators on them bit by bit.

**Scheduler, I/O manager and do_io.** Every region under a lock is one step of a state machine
(`SchedulerModel`, `IoModel`). The laws are about every run (`SchedulerLaws`, `SchedulerPins`,
`SchedulerFibers`, `SchedulerTasks`, `IoLaws`), and the classes in `Scheduler.dfy` and `IoManager.dfy` are the
imperative code, each method proved to take the step it stands for. `DoIo.dfy` adds the client
protocol of `sylar/hook.cc`: calls that try, arm a timer, register, park, are resumed or time out,
interleaved with everything else that uses the I/O manager; `TimedIo.dfy` puts the timer set under
it. `Shutdown.dfy` puts scheduler, I/O manager and timers together; on that stand
`ShutdownTimers.dfy` and `Parking.dfy`, which asks what fibers have to do so that none is queued
twice.

**Timers.** `TimerModel`, `TimerLaws`, `TimerEffects`, `TimerClock` and `TimerLives` treat the
ordered set of mutable timer objects; `TimerManager.dfy` is the code.

**URL encoding.** `UrlCodec.dfy`: the loops with their lazily created output against an eager
definition, byte by byte.

## What turned out not to hold

Each of these has a concrete case and an exact condition in the model.

- Reading zero bytes with the cursor at the end of the capacity dereferences a null chunk. An
  empty string that ends exactly there cannot be read back (`Items.EmptyStringLost`,
  `Items.SequenceRoundTrip`), and a rock message with an empty body is lost exactly when its
  length is a multiple of the chunk size (`Rock.LostMessage`, `Rock.Transfer`).
- The positional `read` starts in the cursor's chunk and tests the size with an unsigned
  difference, so it can return bytes from elsewhere (`FlatBuffer.WrongChunk`,
  `FlatBuffer.BeyondSize`); `FlatBuffer.PositionalExactly` says when it is right.
- The loops for a whole transfer do not see the -1 of a closed socket: they report success and move
  nothing (`Streams.SocketStream.ReadFixSize` and its three siblings).
- A task pinned to a thread can be left behind by a shutdown, in two ways
  (`SchedulerPins.PinnedLeftBehind`, `SchedulerPins.RunningLeftBehind`, and exactly then:
  `SchedulerPins.LeftBehindExactly`).
- A fiber that is scheduled twice can end the program (`SchedulerFibers.ScheduledTwice`,
  `SchedulerLaws.StepKeeps`, `SchedulerFibers.OrderlyNeverAborts`). A fiber that registers two
  events at once can be scheduled twice (`Parking.TwoEventsAbort`); one that registers itself once
  and then parks never is (`Parking.ParkingNeverAborts`).
- A registered event, and an armed timer, can outlive the last worker (`Shutdown.EventLeftBehind`,
  `ShutdownTimers.TimerLeftBehind`, and exactly then: `Shutdown.OutlivesExactly`,
  `ShutdownTimers.TimerOutlivesExactly`).
- An epoll report that was taken before a cancellation can be wider than the registration when it
  is handled, and then ends the program (`IoLaws.WideReportAborts`, `IoLaws.ReportKeeps`).
- A timeout can be missed when the timer's callback comes before the registration
  (`DoIo.MissedDeadline`, `DoIo.DeadlineAhead`), and the callback of an earlier attempt can time
  out a later one (`DoIo.StaleTimer`, `DoIo.StaleExactly`).
- A clock that goes back can break the wake-up promise, through listExpiredCb and through refresh
  (`TimerClock.RollbackBreaksPromise`, `TimerClock.RefreshBreaksPromise`, and exactly then:
  `TimerClock.PromiseExactly`). The rollover test takes any step back on a clock younger than an
  hour for a rollover (`TimerLaws.RolloverMeaning`).
- Encoding with spaces as pluses and decoding without loses exactly the strings that hold a space
  (`UrlCodec.SpaceLost`, `UrlCodec.RoundTrip`). The comment above `UrlEncode` lists the unreserved characters without
  `=`; the table has it, and the model follows the table.

## Model

| member | source | states |
|---|---|---|
| Varint.EncodeLength | sylar/bytearray.cc:139-148 | a varint has at most n bytes exactly when the value is below 2^(7n) |
| Varint.EncodeFits | sylar/bytearray.cc:139-163 | a 32-bit value fits the 5-byte and a 64-bit value the 10-byte scratch array, which is also as far as the readers look |
| Varint.EncodeDigits | sylar/bytearray.cc:139-148 | byte i of a varint is base-128 digit i of the value, the lowest first, with the high bit set on all bytes but the last |
| Varint.DecodeStops | sylar/bytearray.cc:251-264 | a reader stops right behind the first byte without the high bit, or when its room is used up, and fails exactly when the bytes end before that |
| Varint.DecodeDigits | sylar/bytearray.cc:251-264 | digit i of the value read is byte i without its high bit |
| Varint.RoundTrip | sylar/bytearray.cc:251-282 | decoding a varint followed by anything gives its value and stops right behind it |
| Varint.PrefixFree | sylar/bytearray.cc:139-163 | if two varints followed by anything are the same bytes, values and rests are the same |
| Varint.DecodeBound | sylar/bytearray.cc:251-264 | a decoded value is below 2^(7k) for k bytes used, and at least one byte is used |
| Varint.Minimal | sylar/bytearray.cc:139-163 | no byte string that decodes to a word is shorter than the word's own encoding |
| Varint.DecodeAfter | sylar/bytearray.cc:251-282 | after k continuation bytes, decoding is the value collected so far plus the rest shifted by 7k bits |
| Varint.ZigzagMeaning | sylar/bytearray.cc:110-124 | the wrapping two's-complement code computes 2v or -2v-1 and stays in the word, the least value included |
| Varint.UnzigzagMeaning | sylar/bytearray.cc:126-132 | the shift and exclusive-or computes u/2 or -(u/2)-1 within the signed range |
| Varint.ZigzagBijection | sylar/bytearray.cc:110-132 | zigzag encoding and decoding undo each other in both directions, at every width |
| FixedInt.LittleRoundTrip | sylar/endian.h:20-42 | a value is recovered from its little-endian bytes |
| FixedInt.BytesRoundTrip | sylar/endian.h:20-42 | any bytes are recovered from the value they stand for |
| FixedInt.SwapReverses | sylar/endian.h:20-42 | byteswap reverses the bytes, stays in the word, and undoes itself |
| FixedInt.WireRoundTrip | sylar/bytearray.cc:70-108 | swap on write and swap on read give the value back for any setting of the endianness, on any host |
| FixedInt.LittleDigits | sylar/endian.h:20-42 | byte i in little-endian order is v / 2^(8i) mod 256 |
| FixedInt.WrapDigits | sylar/bytearray.cc:61-108 | an integer stored in a word, negative or not, keeps its low bytes |
| FixedInt.WireOrder | sylar/endian.h:50-84 | place i on the wire holds byte i of the value for little-endian and byte n-1-i for big-endian, whatever the host's own order |
| FixedInt.ValueOrder | sylar/endian.h:50-84 | the value read is the one that has these bytes in that order |
| FlatBuffer.PositionalExactly | sylar/bytearray.cc:407-435 | the positional read returns the bytes at its position or refuses, whatever the memory holds, if and only if the unsigned test refuses it, or the position is within the size, the cursor is not at the end, and nothing is read or the position lies in the cursor's chunk |
| FlatBuffer.WrongChunk | sylar/bytearray.cc:412-415 | with the cursor in another chunk the bytes of that chunk come back |
| FlatBuffer.BeyondSize | sylar/bytearray.cc:408 | beyond the size, where the difference wraps, bytes come back |
| FlatBuffer.ReadMeans | sylar/bytearray.cc:378-405 | a read takes the next bytes and leaves the others, or changes nothing; it is refused exactly for want of bytes and meets the null chunk exactly when nothing is read at the end of the memory |
| FlatBuffer.GrownTwice | sylar/bytearray.cc:497-526 | growing in two steps gives the same capacity as growing once |
| FlatBuffer.WritesCompose | sylar/bytearray.cc:343-376 | two writes one after the other are one write of both pieces, memory and capacity included |
| FlatBuffer.WritesSlices | sylar/bytearray.cc:343-376 | after a write the bytes from the old to the new position are the data, and those before are unchanged |
| Chunks.GrownByCount | sylar/bytearray.cc:505-507 | rounding the missing bytes up to whole chunks gives the least capacity that suffices |
| ByteArrays.ByteArray.constructor | sylar/bytearray.cc:31-38 | an empty array of one chunk; the endianness may be anything, as the source does not set it |
| ByteArrays.ByteArray.StateSane | sylar/bytearray.cc:330-526 | in every valid array position <= size <= capacity, capacity is chunks times chunk size, and the cursor is chunk number position / chunk size, null exactly at the end |
| ByteArrays.ByteArray.SetIsLittleEndian | sylar/bytearray.cc:53-59 | changes the byte order and nothing else |
| ByteArrays.ByteArray.Clear | sylar/bytearray.cc:330-341 | leaves the first chunk with its bytes, position and size 0 |
| ByteArrays.ByteArray.AddCapacity | sylar/bytearray.cc:497-526 | grows by whole chunks, as few as needed, and keeps all bytes, position and size; a cursor at the old end moves to the new chunk |
| ByteArrays.ByteArray.Write | sylar/bytearray.cc:343-376 | a write of any length at any position over any chunks is a splice of the flat memory; nothing else changes |
| ByteArrays.ByteArray.WriteLoop | sylar/bytearray.cc:352-371 | the chunk-by-chunk loop splices the data at the position and leaves the cursor at the chunk of the new position |
| ByteArrays.ByteArray.Read | sylar/bytearray.cc:378-405 | a read is the next slice and moves the cursor; too many bytes are refused without a change; zero bytes at the end of the capacity meet the null chunk |
| ByteArrays.ByteArray.ReadAt | sylar/bytearray.cc:407-435 | the positional read returns the slice it reaches from the cursor's chunk, or meets the null chunk, and changes nothing |
| ByteArrays.ByteArray.Gather | sylar/bytearray.cc:387-401 | copying n bytes from an offset of a chunk gives that slice of the flat memory, or meets the null chunk exactly beyond the capacity |
| ByteArrays.ByteArray.SetPosition | sylar/bytearray.cc:437-453 | moves the cursor and raises the size to it, or refuses a position beyond the capacity without a change |
| ByteArrays.ByteArray.ToString | sylar/bytearray.cc:528-536 | exactly the readable bytes |
| ByteArrays.ByteArray.GetReadBuffers | sylar/bytearray.cc:553-583 | the regions are those of the next min(len, readable) bytes, in order |
| ByteArrays.ByteArray.GetReadBuffersAt | sylar/bytearray.cc:585-621 | as many bytes as are readable at the cursor, but from the given position, or the null chunk |
| ByteArrays.ByteArray.GetWriteBuffers | sylar/bytearray.cc:623-651 | grows as needed and returns the regions of the next len bytes, without moving the cursor |
| ByteArrays.ByteArray.ViewBytesAre | sylar/bytearray.cc:553-583 | the contents of the regions concatenate to that slice of the flat memory |
| Streams.Socket.Recv | sylar/socket_stream.cc:32 | any count from 1 to the length, 0 only at the end of the stream or for no bytes, fills the regions from the front |
| Streams.Scatter | sylar/socket_stream.cc:30-32 | filling the first bytes of the regions is a splice of the flat memory at the cursor |
| Streams.Gathered | sylar/socket_stream.cc:49-51 | the bytes taken out of the regions are the next bytes of the array |
| Streams.ReceivedStep | sylar/stream.cc:20-31 | a partial receive after others gives one receive of all their bytes |
| Streams.SocketStream.ReadInto | sylar/socket_stream.cc:26-37 | receiving through regions and moving the cursor leaves what `write` of the received bytes leaves, in a capacity grown for the whole length; -1 and no change on a closed socket |
| Streams.SocketStream.WriteFrom | sylar/socket_stream.cc:45-56 | sends a prefix of the readable bytes and moves the cursor past it |
| Streams.SocketStream.ReadFixBytes | sylar/stream.cc:5-18 | over any partial reads exactly the next bytes of the stream, or 0 and the stream is used up; on a closed socket `left` wraps around to success with nothing read |
| Streams.SocketStream.ReadFixSize | sylar/stream.cc:20-31 | over any partial reads the same as one write of the next bytes of the stream, or 0 at its end; success without a change on a closed socket; it ends |
| Streams.SocketStream.WriteFixBytes | sylar/stream.cc:33-46 | over any partial writes all bytes, in order, once; success with nothing sent on a closed socket |
| Streams.SocketStream.WriteFixSize | sylar/stream.cc:47-58 | over any partial writes the next bytes of the array, in order, once; 0 when the array holds fewer; success with nothing sent on a closed socket |
| Streams.LeftAfter | sylar/stream.cc:10-15 | an int result stored in a size_t and subtracted from one: a count is subtracted, -1 adds one and wraps at the end |
| Items.FixedRoundTrip | sylar/bytearray.cc:201-243 | a fixed-width integer, signed or not, of every width, is read back and the cursor stands behind it |
| Items.VarRoundTrip | sylar/bytearray.cc:247-282 | a varint, zigzag or plain, is read back and the cursor stands behind it |
| Items.PrefixRoundTrip | sylar/bytearray.cc:177-195 | a length prefix is read back as the length cut to the width of the prefix |
| Items.CutLengthIff | sylar/bytearray.cc:177-195 | the cut changes the length exactly when it does not fit the prefix |
| Items.FixedDigits | sylar/bytearray.cc:61-108 | the bytes of a fixed-width integer, negative or not, are its two's complement bytes in the order asked for |
| Items.FixedValueDigits | sylar/bytearray.cc:201-243 | the integer read is in the range of its type and has the bytes found, in the array's order |
| Items.StringBytes | sylar/bytearray.cc:177-195 | a string is 2, 4 or 8 bytes of its length in the array's order, or a varint of it, and then the string |
| Items.StringShort | sylar/bytearray.cc:298-328 | a string whose bytes are not all there is refused with the cursor behind its length |
| Items.VarShort | sylar/bytearray.cc:251-282 | a varint that does not end is refused with all its bytes consumed |
| Items.VarValue | sylar/bytearray.cc:251-282 | a varint read is the number with the digits of its bytes, cut to the word |
| Items.StringRoundTrip | sylar/bytearray.cc:298-328 | a string comes back unless its length does not fit or it is empty at the end of the memory, and then it does not |
| Items.ItemRoundTrip | sylar/bytearray.cc:61-328 | the same for every kind of item, as an if and only if |
| Items.EmptyStringLost | sylar/bytearray.cc:384 | in an array of one byte an empty string is written and its read meets the null chunk |
| Items.SequenceRoundTrip | sylar/bytearray.cc:61-328 | any sequence of items comes back and leaves the cursor at its end, if and only if all lengths fit and it does not end with an empty string at the end of the memory |
| Items.SequenceFails | sylar/bytearray.cc:384 | otherwise it does not; when the lengths fit, the read meets the null chunk |
| Codec.WriteFixed | sylar/bytearray.cc:61-108 | appends the fixed-width bytes: place i holds byte i of the value in little-endian and byte n-1-i in big-endian order, for every host |
| Codec.FillVarint | sylar/bytearray.cc:139-148 | the mask, or and shift loop leaves the base-128 digits in the scratch array |
| Codec.WriteUint | sylar/bytearray.cc:139-163 | appends the varint |
| Codec.WriteVar | sylar/bytearray.cc:135-163 | appends the varint of the value or of its zigzag code |
| Codec.WriteString | sylar/bytearray.cc:177-195 | appends the length, cut to the prefix, and the bytes |
| Codec.WriteAll | sylar/bytearray.cc:61-195 | a sequence of typed writes appends the items' bytes back to back |
| Codec.ReadFixed | sylar/bytearray.cc:201-243 | the integer of its type with the bytes at the cursor, in the array's order, or out of range exactly for want of bytes, and then nothing moves |
| Codec.UintStep | sylar/bytearray.cc:253-262 | one turn of the or and shift loop, in a w-bit word, agrees with the digits of the reference decoder |
| Codec.ReadUint | sylar/bytearray.cc:251-282 | the reference decoder's value cut to the word; a truncated varint consumes all bytes and fails |
| Codec.ReadVar | sylar/bytearray.cc:247-282 | the same with zigzag undone for signed values |
| Codec.ReadString | sylar/bytearray.cc:298-328 | the length, then that many bytes; every failure with the state it leaves |
| Codec.ReadAll | sylar/bytearray.cc:201-328 | a sequence of typed reads stops at the first failure |
| Codec.WriteThenRead | sylar/bytearray.cc:61-328 | on the array itself: any items written, the position set back, and read, come back if and only if lengths fit and they do not end with an empty string at the grown capacity |
| Protocol.BuildFields | sylar/protocol.cc:19-69 | the fields a parser stores rebuild the message they were taken from |
| Protocol.FieldsKinds | sylar/protocol.cc:19-69 | for every message type, parsing reads the kinds that serialising wrote, in the same order |
| Protocol.TypeByte | sylar/protocol.cc:19-69 | the first byte of a message is its type and the fields follow it |
| Protocol.MessageBytesAre | sylar/protocol.cc:19-64 | the bytes of a message: type 1, sn, cmd; type 2, sn, cmd, result, text; type 3, number; numbers as varints, text as the varint of its length and its bytes, and behind them the body, if any, in the same way |
| Protocol.UnknownTypes | sylar/rock/rock_protocol.cc:216-231 | of a message with an unknown type the type byte alone is read, and without a byte nothing is |
| Protocol.MessageRoundTrip | sylar/protocol.cc:19-69 | a message is parsed back with the cursor behind it, or meets the null chunk when it ends with an empty string at the end of the memory |
| Protocol.MessagesRoundTrip | sylar/protocol.cc:19-69 | any list of messages back to back is parsed back, the cursor at the very end, with the same single exception |
| Protocol.MessageObject.SerializeToByteArray | sylar/protocol.cc:19-69 | appends exactly the message's layout |
| Protocol.ReadEach | sylar/protocol.cc:26-69 | typed reads one after the other return the items read before the first failure |
| Protocol.OverlaidFields | sylar/protocol.cc:26-69 | when parsing stops early the fields read are the new ones and the fields behind them the old ones |
| Protocol.MessageObject.ParseFromByteArray | sylar/protocol.cc:19-69 | sets the fields in place to what was written, in order; after a failure those before it are the new ones and the others the old ones |
| Protocol.ReadMessage | sylar/rock/rock_protocol.cc:216-238 | the type byte chooses the parser; an unknown type gives no message |
| Protocol.WriteMessages | sylar/protocol.cc:19-62 | a list of messages is appended back to back |
| Protocol.ReadMessages | sylar/rock/rock_protocol.cc:216-238 | reading n messages stops at the first failure |
| Protocol.WriteThenReadMessages | sylar/protocol.cc:19-69 | on the array itself: any list of messages comes back with the cursor behind it, or meets the null chunk exactly when the last one ends with an empty string at the grown capacity |
| Rock.WireIs | sylar/rock/rock_protocol.cc:19-27 | a message has the same bytes for every byte order and host |
| Rock.FrameReads | sylar/rock/rock_protocol.cc:172-244 | a frame at the front of a stream yields the message's bytes and leaves the rest |
| Rock.FrameBytes | sylar/rock/rock_protocol.cc:246-271 | the bytes of a frame on any host: 0xab, 0xcd, version 1, the flag, the length with the high byte first, and the message, compressed exactly from the configured length on |
| Rock.FramedReads | sylar/rock/rock_protocol.cc:172-215 | a frame of an allowed length, whatever else its flag holds, is read as its body, uncompressed exactly if the low bit is set |
| Rock.AcceptsExactly | sylar/rock/rock_protocol.cc:172-215 | a stream is taken for a frame if and only if it begins with one of an allowed length whose body can be uncompressed if it has to be |
| Rock.FrameNeutral | sylar/rock/rock_protocol.cc:266 | a frame has the same bytes on hosts of either byte order |
| Rock.LoadedDelivers | sylar/rock/rock_protocol.cc:216-238 | an array holding a message's bytes parses to it, or to the null chunk exactly for an empty body that fills the chunks |
| Rock.UnknownGivesNone | sylar/rock/rock_protocol.cc:216-244 | an empty payload, or one of an unknown type, gives no message |
| Rock.Prepare | sylar/rock/rock_protocol.cc:246-265 | a rewound array of the message's bytes, compressed from the configured length on, and the flag |
| Rock.SerializeTo | sylar/rock/rock_protocol.cc:246-276 | exactly one frame is sent over any partial writes, and nothing on a closed socket; the result is its length, or -4 with nothing to carry |
| Rock.ParseFrom | sylar/rock/rock_protocol.cc:165-244 | bad magic, version or length, a short stream, bad compression or a closed socket give no message; otherwise the result of parsing the payload, which is the message if the payload is one, and the stream stands behind the frame |
| Rock.GrownExact | sylar/bytearray.cc:497-526 | a length fills its chunks exactly when it is a multiple of the chunk size |
| Rock.LostMessage | sylar/rock/rock_protocol.cc:98-108 | a response with 4089 bytes of text and no body is 4096 bytes long |
| Rock.Transfer | sylar/rock/rock_protocol.cc:172-276 | end to end between hosts of any byte order and over any partial transfers: the message arrives and the rest of the stream is untouched, if and only if it does not both have an empty body and fill whole chunks |
| UrlCodec.UrlEncode | sylar/util.cc:393-422 | the lazily buffered loop equals the eager encoding, byte by byte |
| UrlCodec.UrlDecode | sylar/util.cc:424-453 | the lazily buffered loop equals the eager decoding |
| UrlCodec.UnreservedAre | sylar/util.cc:347-368 | the bytes that encoding leaves alone, spelled out |
| UrlCodec.EncodeReserved | sylar/util.cc:393-422 | any other byte becomes a percent sign and its two digits in upper case |
| UrlCodec.HexSpelled | sylar/util.cc:370-387 | the digit table reads 0-9, A-F and a-f as their values, and nothing else is a digit |
| UrlCodec.DecodeEscape | sylar/util.cc:424-453 | a percent sign and two digits of either case decode to their byte; without two digits the percent sign stands for itself |
| UrlCodec.DecodePlain | sylar/util.cc:424-453 | any other byte stands for itself, apart from a plus that stands for a space |
| UrlCodec.DecodeOne | sylar/util.cc:393-453 | decoding one encoded byte in front of anything gives that byte, for each pair of flags |
| UrlCodec.DecodeEncode | sylar/util.cc:393-453 | decoding an encoded string gives it back with, for the flags that differ, pluses for spaces |
| UrlCodec.RoundTrip | sylar/util.cc:393-453 | the same flag gives the string back; different flags do exactly when no space is lost |
| UrlCodec.SpaceLost | sylar/util.cc:393-453 | a single space, encoded with the flag and decoded without, comes back as a plus |
| UrlCodec.EncodeInjective | sylar/util.cc:393-422 | different strings have different encodings |
| UrlCodec.EncodeSafe | sylar/util.cc:347-422 | an encoding holds only unreserved characters, percent signs and, with the flag, pluses |
| TimerModel.LessIsOrder | sylar/timer.cc:6-24 | the comparator, null pointers included, is a strict total order |
| TimerModel.FindMember | sylar/timer.cc:43 | in a set that is in order, find finds exactly the members, at their place |
| TimerModel.InsertSorted | sylar/timer.cc:108-110 | insertion keeps the order, adds that timer alone, and puts it first exactly when its lower bound is the front |
| TimerModel.RemoveSorted | sylar/timer.cc:44 | erasing keeps the order and removes that timer alone |
| TimerEffects.AddTimerEffect | sylar/timer.cc:99-119 | the new timer is in the set with its deadline, nothing else changes, and the sleeper is woken exactly when it is first and was not woken yet |
| TimerEffects.CancelEffect | sylar/timer.cc:39-48 | succeeds exactly for an armed timer, which leaves the set without its callback; nothing else changes |
| TimerEffects.RefreshEffect | sylar/timer.cc:50-63 | succeeds exactly for an armed timer, now due a period from now; nobody is woken |
| TimerEffects.ResetChanges | sylar/timer.cc:65-89 | at any deadline and clock reset changes that timer's period and deadline and nothing else |
| TimerEffects.ResetEffect | sylar/timer.cc:65-89 | the new deadline, the wake-up, the failure on a dead timer and the early success on the same period |
| TimerLaws.FireSpec | sylar/timer.cc:178-186 | firing distinct timers takes their callbacks in order; a recurring one keeps its callback, period and kind and is due at now + period, a one-shot one loses its callback and nothing else |
| TimerLaws.TakenSpec | sylar/timer.cc:164-175 | the timers taken are exactly those due, all of them on a rollback |
| TimerLaws.ProbeIrrelevant | sylar/timer.cc:169-173 | the address of the probe timer does not matter |
| TimerLaws.ListExpiredSpec | sylar/timer.cc:151-187 | the callbacks of exactly the due timers, in the order of the set; a due recurring timer differs only in its deadline now + period, a due one-shot timer only in its missing callback, all others not at all |
| TimerLaws.SleepIsExact | sylar/timer.cc:135-187 | getNextTimer returns the least time after which listExpiredCb returns something, 0 if now, all ones exactly without timers |
| TimerLaws.AddKeeps | sylar/timer.cc:99-119 | adding keeps the invariant of the runs |
| TimerLaws.CancelKeeps | sylar/timer.cc:39-48 | cancelling keeps it and never erases what is not there |
| TimerLaws.RefreshKeeps | sylar/timer.cc:50-63 | refreshing keeps it; waking nobody is right because deadlines only move back |
| TimerLaws.ResetKeeps | sylar/timer.cc:65-89 | resetting keeps it |
| TimerLaws.ListExpiredKeeps | sylar/timer.cc:151-187 | listing expired timers without a rollback keeps it |
| TimerLaws.EveryRun | sylar/timer.cc:39-198 | in every run in which the clock does not go back, and no clock value read before the lock lags so far that the rollover test trips, the set is in order without duplicates, a timer has a callback exactly while in the set, no erase misses, and no timer is due before the deadline last reported unless onTimerInsertedAtFront was called since |
| TimerLaws.RolloverMeaning | sylar/timer.cc:190-198 | the unsigned test finds a step back of more than an hour, and on a clock younger than an hour any step back |
| TimerLaws.RollbackAwake | sylar/timer.cc:164-186 | after a rollback the promise holds exactly when no re-armed timer is due before the reported deadline |
| TimerClock.RefreshAnyClock | sylar/timer.cc:50-63 | at any clock refresh keeps the set in order, and the promise exactly when the sleeper was woken, the timer is not armed, or its new deadline is not before the reported one |
| TimerClock.PromiseExactly | sylar/timer.cc:39-198 | at any clock every operation keeps the set in order and erases no missing timer; the promise survives all operations but refresh and listExpiredCb, and those under their exact conditions |
| TimerClock.EveryClock | sylar/timer.cc:39-198 | in every run under any clock the set is in order at the end, and the promise holds throughout if and only if every operation was harmless |
| TimerClock.RollbackBreaksPromise | sylar/timer.cc:164-186 | a run from the start: a recurring timer, a look, the clock two hours back, and a listing |
| TimerClock.RefreshBreaksPromise | sylar/timer.cc:50-63 | a run from the start: a timer, a look, the clock half a second back, and a refresh |
| TimerLives.LivesOn | sylar/timer.cc:39-187 | at any clock a timer leaves the set exactly by being cancelled or, if it does not recur, by being listed when due; otherwise it keeps callback, kind and period, and its new deadline is given for each operation |
| TimerLives.StaysOut | sylar/timer.cc:39-187 | no operation but arming a new timer puts a timer into the set that is not there |
| TimerLives.RecursForGood | sylar/timer.cc:178-186 | after any run under any clock a recurring timer that nobody cancels is in the set, still recurring, with its callback |
| TimerLives.GoneForGood | sylar/timer.cc:178-186 | after any run a timer that has fired for good or was cancelled is not in the set |
| TimerManagers.TimerManager.AddTimer | sylar/timer.cc:99-119 | the code takes the model's step and announces as the model says |
| TimerManagers.TimerManager.Cancel | sylar/timer.cc:39-48 | the code takes the model's step; the iterator it erases is valid |
| TimerManagers.TimerManager.Refresh | sylar/timer.cc:50-63 | the code takes the model's step |
| TimerManagers.TimerManager.Reset | sylar/timer.cc:65-89 | the code takes the model's step and announces as the model says |
| TimerManagers.TimerManager.GetNextTimer | sylar/timer.cc:135-149 | the code takes the model's step |
| TimerManagers.TimerManager.DetectClockRollover | sylar/timer.cc:190-198 | true exactly for a step back of more than an hour, or for any step back from a time within the first hour; the time is remembered |
| TimerManagers.TimerManager.FireAll | sylar/timer.cc:178-186 | the loop over expired timers equals the recursive definition |
| TimerManagers.TimerManager.ListExpiredCb | sylar/timer.cc:151-187 | the code takes the model's step; due recurring timers are due again at now + period and otherwise unchanged, due one-shot timers have lost their callbacks, the others are unchanged |
| SchedulerModel.FirstEligible | sylar/scheduler.cc:154-172 | the first task not pinned elsewhere whose fiber is not running, and none before it |
| SchedulerLaws.CountKeeps | sylar/scheduler.cc:151-228 | every step keeps the active count equal to the number of workers between a pick and its decrement |
| SchedulerLaws.ExecKeeps | sylar/scheduler.cc:161-191 | every step that does not abort keeps that a fiber is in EXEC exactly while one worker runs it, and never two |
| SchedulerLaws.PinKeeps | sylar/scheduler.cc:155-158 | every step keeps that a task in hand is not pinned to another thread |
| SchedulerLaws.PlacesKeeps | sylar/scheduler.cc:151-228 | every step keeps each accepted task in exactly one place: queued, in one hand, or finished |
| SchedulerLaws.StrandedScan | sylar/scheduler.cc:151-221 | a worker's last scan leaves an unpinned task only if another worker is running its fiber and will scan again |
| SchedulerLaws.StrandedKeeps | sylar/scheduler.cc:147-229 | every step keeps that an unpinned queued task has a worker left, the gap before the re-queue included |
| SchedulerLaws.StepKeeps | sylar/scheduler.cc:147-229 | every step keeps the whole invariant or aborts, and it aborts exactly when a worker swaps in a fiber that another one is running |
| SchedulerLaws.StopMeans | sylar/scheduler.cc:236-240 | in every reachable state stopping() means that nothing is queued and no worker has a task, and then every accepted task is finished or about to be queued again |
| SchedulerLaws.EveryRun | sylar/scheduler.cc:147-229 | in every run: the count, the pins, the places, and nothing unpinned stranded |
| SchedulerLaws.AllWorkersGone | sylar/scheduler.cc:74-128 | once the last worker has left, every accepted task is finished (and then it was run, by SchedulerTasks.DoneWasRunning) or was pinned, and the count is 0 |
| SchedulerPins.StuckStep | sylar/scheduler.cc:147-229 | a step leaves a task queued for a thread that is gone exactly if it was so before or the step abandons it |
| SchedulerPins.LeftBehindExactly | sylar/scheduler.cc:74-229 | once the last worker has left, a task is still queued if and only if it was queued for a thread that was no worker any more, or its worker made its last scan while its fiber was running elsewhere |
| SchedulerPins.ShutdownFinishesAll | sylar/scheduler.cc:74-128 | a shutdown finishes every accepted task if and only if no step of the run abandons one; finished means run, by SchedulerTasks.DoneWasRunning |
| SchedulerPins.AlwaysFinishes | sylar/scheduler.cc:74-229 | an unpinned task, and a callback pinned to a worker that has not left, is finished once the last worker has left, whatever else happens; the callback was run, by SchedulerTasks.CallbacksRun |
| SchedulerPins.PinnedLeftBehind | sylar/scheduler.cc:155-158 | a run of two workers, in which idle fibers schedule nothing, that leaves a callback pinned to a thread that had left |
| SchedulerPins.RunningLeftBehind | sylar/scheduler.cc:155-165 | a run of two workers, in which idle fibers schedule nothing, that leaves a fiber pinned to a thread that could not take it while it ran |
| SchedulerTasks.FinishesExactly | sylar/scheduler.cc:180-215 | a task is finished exactly by the end of its slice, by the re-queueing of its fiber, or by being dropped because its fiber had ended |
| SchedulerTasks.SwapInRuns | sylar/scheduler.cc:180-199 | a picked callback, or fiber that has not ended, is run by that worker, and nothing else changes |
| SchedulerTasks.StateExactly | sylar/scheduler.cc:180-210 | after any step a fiber is READY, on HOLD or ended exactly if a slice of it has just ended so, or it was so and is not swapped in |
| SchedulerTasks.YieldedComesBack | sylar/scheduler.cc:185-186 | in every run a fiber that yielded is queued for any thread, picked, or about to be queued, and a worker is left for it |
| SchedulerTasks.DoneWasRunning | sylar/scheduler.cc:180-215 | in every run each finished task was run by a worker, or was dropped because its fiber had ended |
| SchedulerTasks.FinishedWasRun | sylar/scheduler.cc:154-215 | in every run a scheduled task that is finished was run as it was scheduled, by a worker its pin allows and in its own fiber, or its fiber had ended; a callback was always run |
| SchedulerTasks.CallbacksRun | sylar/scheduler.cc:74-229 | a callback scheduled for any thread, or for a worker that has not left, is run before the last worker leaves |
| SchedulerTasks.EndedByItsSlice | sylar/scheduler.cc:180-210 | in every run a fiber that is found ended was ended by a slice of its own |
| SchedulerTasks.OldestFirst | sylar/scheduler.cc:151-174 | in every run a scan takes the oldest task its thread may run and leaves the others; without one the worker idles, or leaves if its idle fiber has ended |
| SchedulerTasks.PositionExactly | sylar/scheduler.cc:147-229 | where a worker is after any step, if and only if: it goes idle only from a scan that finds nothing, leaves only if its idle fiber had ended then or it is let in with nothing to do, and has, runs or has back a task only by its own scan, SwapIn and yield |
| SchedulerTasks.CanGoOn | sylar/scheduler.cc:147-229 | in every run a worker that has not left has a step to take, and what it runs can schedule and can end its slice in any way |
| SchedulerFibers.ClaimsStep | sylar/scheduler.cc:147-229 | orderly steps keep every fiber claimed at most once, and a picked fiber not running |
| SchedulerFibers.OrderlyNeverAborts | sylar/fiber.cc:136-143 | if a fiber is scheduled, or yields READY, only while it is not queued, picked or about to be queued, and callbacks have fibers of their own, no SwapIn aborts |
| SchedulerFibers.CalmNeverAborts | sylar/fiber.cc:136-143 | no SwapIn aborts if no fiber is scheduled while it is queued, in a hand or running |
| SchedulerFibers.ScheduledTwice | sylar/fiber.cc:136-143 | a run in which a fiber is scheduled twice and the second SwapIn aborts |
| Schedulers.Scheduler.ScheduleNoLock | sylar/scheduler.h:96-103 | a task goes to the end of the queue, an empty one is ignored, and a tickle is needed exactly for an empty queue |
| Schedulers.Scheduler.ScheduleAll | sylar/scheduler.h:58-77 | a batch goes to the end of the queue in its order, numbered on and unpinned, with one tickle if the queue was empty |
| Schedulers.Scheduler.PickTask | sylar/scheduler.cc:151-174 | the loop takes the step of the scan, and others are tickled exactly when it skipped a task pinned elsewhere or left tasks behind |
| Schedulers.Scheduler.Stopping | sylar/scheduler.cc:236-240 | while the active count is right, true exactly when stop() was called, nothing is queued and no worker is between its pick and its decrement |
| IoLaws.TriggerSpec | sylar/iomanager.cc:28-51 | a registered event hands over exactly what waited for it, leaves an empty context and the other event alone |
| IoLaws.TriggerAllSpec | sylar/iomanager.cc:242-255 | a mask within the registered events hands over what waited for each, READ before WRITE, and counts down as many |
| IoLaws.AddEventKeeps | sylar/iomanager.cc:102-153 | keeps the invariant; aborts exactly on a double registration; a failed epoll_ctl changes nothing but the table's size |
| IoLaws.TableRight | sylar/iomanager.cc:91-113 | extending the table, to half as many again as the descriptor, covers the descriptor and keeps every context |
| IoLaws.DelEventKeeps | sylar/iomanager.cc:155-187 | keeps the invariant, queues nothing, succeeds exactly for a registered event, and a failure changes nothing |
| IoLaws.CancelEventKeeps | sylar/iomanager.cc:189-219 | keeps the invariant, never aborts, succeeds exactly for a registered event, and a failure changes nothing |
| IoLaws.CancelAllKeeps | sylar/iomanager.cc:221-258 | keeps the invariant, hands over what waited for each event, READ before WRITE, and leaves no event, so its last assertion holds |
| IoLaws.ReportKeeps | sylar/iomanager.cc:334-381 | keeps the invariant; the registered events that the report names, or all of them on an error or hang-up, leave the mask and what waited for them is handed over, READ before WRITE; aborts exactly when the report is about a registered event and names one that is not |
| IoLaws.HangupWakesAll | sylar/iomanager.cc:344-380 | an error or hang-up hands over everything that waits on the descriptor, READ before WRITE, and unregisters it |
| IoLaws.DropApplies | sylar/iomanager.cc:168-176 | MOD and DEL are never issued for a descriptor the kernel does not know |
| IoLaws.AddApplies | sylar/iomanager.cc:123-142 | ADD is never issued for a descriptor the kernel knows, and the context of a new event is empty |
| IoLaws.StepKeeps | sylar/iomanager.cc:102-381 | which aborts are possible, each with its exact condition, and the invariant otherwise |
| IoLaws.EveryRun | sylar/iomanager.cc:102-381 | in every run contexts match the event bits, the pending count is the number of bits, and the kernel's masks are the software masks |
| IoLaws.ConsumedOnce | sylar/iomanager.cc:34-51 | in every run each registration is in exactly one place: waiting, handed over once, or deleted |
| IoLaws.WideReportAborts | sylar/iomanager.cc:334-381 | a run: READ and WRITE are registered, the kernel has both and reports both, WRITE is cancelled, and handling the report aborts |
| IoManagers.IoManager.AddEvent | sylar/iomanager.cc:102-153 | the code takes the model's step and aborts exactly on a double registration |
| IoManagers.IoManager.DelEvent | sylar/iomanager.cc:155-187 | the code takes the model's step |
| IoManagers.IoManager.TriggerEvent | sylar/iomanager.cc:34-51 | the code takes the model's step |
| IoManagers.IoManager.CancelEvent | sylar/iomanager.cc:189-219 | the code takes the model's step and does not abort |
| IoManagers.IoManager.CancelAll | sylar/iomanager.cc:221-258 | the code takes the model's step and does not abort; everything that waited is scheduled, READ before WRITE |
| IoManagers.IoManager.HandleReport | sylar/iomanager.cc:351-380 | the code takes the model's step and aborts exactly on a wider report; otherwise exactly what waited for the events it names, or for all on an error or hang-up, is scheduled, READ before WRITE |
| IoManagers.IoManager.HandleReports | sylar/iomanager.cc:334-381 | the loop over a batch of reports is a run of those steps, or stops at one that is too wide |
| DoIo.EvolvesStep | sylar/iomanager.cc:102-381 | over any step a registered event is kept with its context, handed over as it was, or deleted |
| DoIo.HandedAsMade | sylar/iomanager.cc:34-153 | in every run what is handed over for a registration is the callback, or else the fiber, that addEvent was called with, for the scheduler that called |
| DoIo.ReturnsExactly | sylar/hook.cc:109-150 | which act makes a call return with the transfer, with a timeout, or refused, each if and only if |
| DoIo.MarkedExactly | sylar/hook.cc:121-128 | a call is marked exactly by the callback of one of its timers that finds it running |
| DoIo.DeadCallback | sylar/hook.cc:122-125 | the callback of a timer whose call has returned or is marked cancels nothing and changes no call |
| DoIo.CallbackTouches | sylar/hook.cc:121-128 | a callback takes a registered event away only if its call runs, is not marked, and is for that event of that descriptor |
| DoIo.CanGoOn | sylar/hook.cc:109-149 | a call that tries can go on, one that registers unless the event is taken, one that is parked once it is queued; armed timers can expire and taken callbacks can run |
| DoIo.CallRun | sylar/hook.cc:106-150 | in every interleaving a call keeps its terms, and after it has returned nothing about it changes |
| DoIo.TasksRunOnce | sylar/hook.cc:139-143 | in every interleaving no task that was handed over is run twice |
| DoIo.CallsKeepTerms | sylar/hook.cc:106-129 | in every interleaving a call has the descriptor, event, fiber and timeout it was begun with, and without a timeout it is never marked and never times out |
| DoIo.ActKeeps | sylar/hook.cc:109-149 | every act of every call keeps that no parked fiber is lost, that a task is run once, and that only timers mark timeouts |
| DoIo.DeadlinesKept | sylar/hook.cc:119-143 | every act keeps that a waiting call with a timeout and no mark has its timer pending, and that armed timers belong to the current attempt |
| DoIo.EveryInterleaving | sylar/hook.cc:109-149 | in every interleaving a parked fiber waits or is queued on its own scheduler unless its event was deleted, at most once and not yet run, its deadline is pending unless it is marked, and a timeout is reported only after one of the call's timers fired |
| DoIo.CancelHands | sylar/iomanager.cc:189-219 | cancelling a registered event queues what waited, clears the bit and counts down |
| DoIo.DeadlineWakes | sylar/hook.cc:121-129 | a callback that finds its call waiting queues the fiber exactly when epoll_ctl succeeds |
| DoIo.DeadlineAhead | sylar/hook.cc:119-136 | a call with a timeout parks with its deadline ahead exactly when it was not marked before |
| DoIo.MissedDeadline | sylar/hook.cc:119-136 | a run that parks a call with a timeout and no timer left |
| DoIo.StaleExactly | sylar/hook.cc:137-145 | a resumed call still has a timeout coming exactly when a taken callback has not run yet |
| DoIo.StaleTimer | sylar/hook.cc:107-145 | a run that times out a second attempt whose timer never expired |
| TimedIo.Projects | sylar/hook.cc:109-149 | a run with the timer set, in which listExpiredCb takes all due timers at once, is a run of the calls, and the armed timers of the calls are the members of the set |
| TimedIo.DeadlineInSet | sylar/hook.cc:119-143 | in every interleaving a parked, unmarked call with a timeout has a timer in the set, or one whose callback was taken and has not run |
| TimedIo.DeadlineIs | sylar/hook.cc:119-128 | in every interleaving the timer that a blocking attempt arms is due exactly its timeout after that, for as long as it is in the set |
| TimedIo.DeadlineIsTaken | sylar/hook.cc:119-130 | a listing takes the callback of such a timer exactly at or past its deadline, rollbacks aside |
| Shutdown.WaitStep | sylar/iomanager.cc:102-381 | a waiting registration goes on waiting if and only if the step does not withdraw it or answer it |
| Shutdown.NoReturn | sylar/iomanager.cc:102-381 | a registration that no longer waits never waits again |
| Shutdown.HandQueues | sylar/scheduler.h:58-77 | tasks that are handed over go to the end of the queue in their order, each as its fiber or its callback, unpinned |
| Shutdown.HandedReachQueue | sylar/iomanager.cc:34-51 | what an I/O step hands over, and nothing else, reaches the end of the queue in that order |
| Shutdown.OutlivesExactly | sylar/iomanager.cc:272-287 | in every run of scheduler, events and timers, once the last worker has left, a registered event still waits if and only if after its registration no idle fiber looked at the count of pending events and nobody withdrew it |
| Shutdown.EventLeftBehind | sylar/iomanager.cc:272-287 | a run of two workers that ends with a registered event and nobody to report it |
| ShutdownTimers.TimerStep | sylar/timer.cc:39-119 | an armed timer stays in the set unless it is cancelled, whatever is done to it or to others, with its callback and kind, and its deadline moves only by its own refresh and reset; one that left does not come back |
| ShutdownTimers.FiredReachQueue | sylar/iomanager.cc:323-329 | a listing puts the callbacks of exactly the due timers, in the order of the set, at the end of the queue |
| ShutdownTimers.TimerOutlivesExactly | sylar/iomanager.cc:272-287 | once the last worker has left, a timer is still armed if and only if after it was armed no idle fiber looked at the timers and nobody cancelled it |
| ShutdownTimers.TimerLeftBehind | sylar/iomanager.cc:272-287 | a run of two workers that ends with an armed timer and nobody to list it |
| Parking.RuleIsOrderly | sylar/hook.cc:132-137 | fibers that are scheduled only to be started, register themselves at most once in a slice and then park make orderly steps |
| Parking.HandedFiber | sylar/iomanager.cc:34-51 | a fiber that an I/O step hands over waited for that event alone, and waits for nothing afterwards |
| Parking.ParkingNeverAborts | sylar/fiber.cc:136-143 | in every run of scheduler, events and timers with such fibers no fiber is queued or picked twice, none is queued while it waits, and no SwapIn aborts |
| Parking.TwoEventsAbort | sylar/fiber.cc:136-143 | a run in which a fiber registers for READ and WRITE in one slice and the second SwapIn aborts |

## Left out

- Streams.SocketStream.ReadInto: error results of recv on a connected socket are not modelled; the loops would treat them as they treat a closed one.
- Streams.SocketStream.ReadFixSize: requires a length below 2^64, as its three siblings do, since `left` is a size_t.
- Rock.SerializeTo: requires a size below 2^64.
- ByteArrays.ByteArray.ToString: requires a size below 2^64, since the bytes are fetched through a read of that many bytes.
- Codec.WriteFixed: one method for all fixed widths and both signs; a signed value is written as its two's complement.
- TimerEffects.ResetEffect: requires deadlines below 2^64, as everywhere in the timers.
- SchedulerLaws.AllWorkersGone: tasks scheduled from outside after `stop()` are excluded, as in the runs; they can come after the last scan.
- SchedulerLaws.EveryRun: a fiber's yield and the worker's note of its state are one step, although the code does not protect the gap between them.
- Schedulers.Scheduler.PickTask: it and the other locked regions are imperative; the rest of `run()`, which changes a worker's own variables, is modelled as steps on values.
- DoIo.EveryInterleaving: the retry loop is modelled as acts of a state machine on values, one for each stretch between two points where others can run.
- IoManagers.IoManager.AddEvent: is one atomic step; two threads that extend the table at the same time are not modelled, nor callers outside a scheduler.
- Rock.Transfer: assumes that the compressor's output is uncompressed to its input; compression itself is a pair of functions from outside.
- Wake-ups by `tickle` and everything about latency: a tickle can be skipped between a scan and the count of idle workers, so only safety is stated.
- Overflow of 64-bit sizes, of `now + ms`, and of the `int` results of the stream functions.
- The ceiling of a floating-point quotient in addCapacity is taken as exact.
- Floats and doubles, reading and writing files, and hexadecimal dumps of the byte array.
- ShutdownTimers.TimerOutlivesExactly: a new timer has an address that no earlier timer object had; the reuse of addresses is not modelled here.
- Shutdown.OutlivesExactly: the caller's thread may leave whenever there is neither an event nor a timer, which allows for more than the source does.
- Reports of the tickle pipe, which are read and dropped.
- The other hooked functions (connect, sleep, accept, close), which repeat parts of do_io.
- The Ragel parsers for URIs and HTTP and what is built on them, addresses, logging, configuration, modules and daemons: library code, generated machines or plain bookkeeping.
