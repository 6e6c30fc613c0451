# Verification of nasa-cpp

nasa-cpp connects a Samsung heat pump to Home Assistant. It speaks the pump's NASA protocol over a serial line
or TCP, keeps one handler per message number that publishes reported values and repeats user commands until the
pump confirms them, and stores samples in a history database that a web page draws from. This project models the
logic of these three parts in Dafny and proves what they promise.

Run `dafny verify dfyconfig.toml` to check it.

## Structure

| module | models |
|---|---|
| `Basics`, `Bytes`, `Gf2`, `Crc` | optional values; bytes and words; polynomials over GF(2) as bit strings, division, multiples of a generator; `crc16` on 16-bit words and its meaning as division by x^16 + x^12 + x^5 + 1, the generating polynomial of ITU-T V.41, section 2 |
| `TwoBitFlips` | the order of x modulo that polynomial, 32767 |
| `Numerals` | `std::to_string` and `std::stoi` with base 0 |
| `Packets` | addresses, commands, messages, frames, `Packet::encode` and `Packet::decode` |
| `Stream` | `NasaProtocol::decode`, which pops frames off a byte deque |
| `WireFormat` | the bytes on the line spelled out: message types, values, fields of a frame, reasons to refuse one, delivered packets |
| `Transmission` | streams of packets, noise before them, damaged frames |
| `Pipeline` | the decoder between threads, and the receive loop of the bridge with its buffer limit |
| `Handlers`, `HandlerRuns` | a message handler with its MQTT subclasses; what holds over all its runs |
| `ClosedLoop` | handler, wire and an echoing unit together; the option tables of enumerations |
| `Bridge` | all handlers behind one mutex, polled in the order of their message numbers |
| `Polling` | what a poll sends, field by field and over all runs; what reports and payloads come to |
| `Storage`, `Throttle`, `Restart` | the history store; what throttling keeps; what flushes, purges and restarts leave unchanged |
| `Timeline`, `StepHistory` | the state timeline; the way from reports to drawn segments |
| `Downsampling`, `Energy` | aggregated history; counter values at period boundaries and their differences |

Code that changes state step by step is a method or a class with the same fields, proved equal to a
specification function (`Encode`, `Decode`, `Parse`, `Step`, `Poll`, `Report`, `Recorded`, `History`,
`Segments`, ...). The lemmas say what these functions mean. Integers are unbounded in Dafny, so every width is
written out: bytes and words are subset types, fields are packed modulo 256, 16- and 32-bit values are cut and
sign-extended where the C++ code does so. The critical sections of the threads are atomic steps that interleave
freely.

## What the proofs show about the code

- **Error detection.** The checksum notices every burst of up to 16 bits, every odd number of flipped bits and
  every two flipped bits in a frame. In general damage between the length field and the end byte goes unnoticed
  exactly when the flipped bits form a multiple of the generator (`DetectionIsExact`).
- **Empty frames.** `Packet::decode` accepts a frame without messages. The stream decoder never delivers one,
  because it skips length fields below 16 (`NoMessagesNoPacket`).
- **Round trips.** Encoding and decoding are inverse bijections between well-formed packets of scalar messages and
  canonical frames. Outside these sets the exact outcome is proved as well (`EncodeThenDecode`, `DecodeThenEncode`).
- **Retry counts.** A handler counts retries from 0 to 10, the field on the wire has two bits. Counts 4 to 7 arrive
  with protocol version 3 instead of 2. Counts 8 to 10 arrive with version 0 and the packet-information bit
  cleared (`RetryCountOnWire`).
- **Buffer limit.** The receive loop handles exactly the packets of all bytes received, in every run, if and only if
  `buffer_limit` is at least 1501 (`BufferLimit`). Below that, a run exists in which the loop consumes every byte
  and never handles the packet they carry (`PacketLost`).
- **Dropped commands.** A handler that gives up a command wants the old value from then on, instead of nothing. If the
  unit's next report is a change, it is answered with up to eleven commands that undo it; if the unit first repeats
  the old value, the wish is forgotten and nothing is sent (`DroppedCommandUndoesChanges`).
- **Ambiguous options.** All labels of an enumeration come back if and only if no two have the same raw value
  (`LabelsRoundTrip`).
- **Retention.** Purges and restarts leave the decisions of `record` alone if and only if the retention is at least
  heartbeat - 1 and minimum interval - 1 seconds (`RetentionBound`).

## Model

| member | source | states |
|---|---|---|
| Crc.Crc16 | src/nasa_protocol_helper.hpp:10-31 | the two nested loops compute, for any range of the data, the number whose digits are the remainder of the range's bits times x^16 |
| Crc.ChecksumIsRemainder | src/nasa_protocol_helper.hpp:10-31 | a word is the checksum if and only if some quotient Q satisfies M(x) x^16 = Q(x) G(x) + R(x) with the word as R |
| Gf2.RemainderDivides | src/nasa_protocol_helper.hpp:17-28 | the bitwise shift register solves the division equation, for every generator and message |
| Gf2.DivisionIsUnique | src/nasa_protocol_helper.hpp:17-28 | the division equation has one solution: quotient and remainder are determined |
| Gf2.RemainderLinear | src/nasa_protocol_helper.hpp:17-28 | the remainder of a sum is the sum of the remainders |
| Gf2.WaitingStep | src/nasa_protocol_helper.hpp:15-28 | a register with a byte added at its top reads the byte's next bit with each shift, for every generator |
| Crc.ShiftRegisterIsStep | src/nasa_protocol_helper.hpp:18-26 | shifting a 16-bit word and subtracting 0x1021 when the top bit was set is one division step by the generator |
| Crc.CodewordCheck | src/nasa_protocol_types.cpp:253-255 | a message with two bytes appended is divisible by the generator if and only if these are its checksum, high byte first |
| Crc.ChecksumOfCodeword | src/nasa_protocol_types.cpp:253-255 | on numbers: the checksum over message and two trailer bytes is 0 if and only if they are the checksum of the message |
| Gf2.BurstLeavesRemainder | src/nasa_protocol_helper.hpp:10-31 | a nonzero pattern within as many consecutive bits as the degree of the generator is never divisible by it |
| Gf2.OddLeavesRemainder | src/nasa_protocol_helper.hpp:10-31 | a pattern with an odd number of ones is never divisible by a generator with an even number of terms |
| TwoBitFlips.OrderOfX | src/nasa_protocol_helper.hpp:18-26 | x^k is 1 modulo the generator if and only if 32767 divides k |
| TwoBitFlips.TwoOnesDivisible | src/nasa_protocol_helper.hpp:10-31 | a pattern of two ones is divisible by the generator if and only if their distance is a multiple of 32767 |
| Packets.CommandRoundTrip | src/nasa_protocol_types.cpp:44-58 | a command packed by addition reads back with each field modulo its width and the overflow added to the field above |
| Packets.CommandOnWire | src/nasa_protocol_types.cpp:44-58 | a command reads back unchanged if and only if all its fields fit their widths |
| Packets.CommandReverse | src/nasa_protocol_types.cpp:44-58 | packing what was read restores the three bytes if and only if the low three bits of the first are zero |
| Packets.NumberRoundTrip | src/nasa_protocol_types.cpp:71-84 | the number read from the bytes of a scalar message is the encoded one cut to 8 or 16 unsigned or 32 signed bits |
| Packets.MessageRoundTrip | src/nasa_protocol_types.cpp:68-136 | decoding a scalar message yields its number and value as the wire carries them, and the cursor moves by its length |
| Packets.DecodeMessages | src/nasa_protocol_types.cpp:218-227 | the cursor loop reads the messages one after the other, structures and overruns included |
| Packets.DecodePacket | src/nasa_protocol_types.cpp:177-230 | the checks in their order with their error codes, then the fields |
| Packets.EncodePacket | src/nasa_protocol_types.cpp:232-258 | pushing the fields and patching the length afterwards gives start byte, length, content, checksum, end byte |
| Packets.AcceptedAreFrames | src/nasa_protocol_types.cpp:179-205 | `decode` accepts exactly the frames of 16 to 1500 bytes whose length field, end byte and checksum are right |
| Packets.EncodeThenDecode | src/nasa_protocol_types.cpp:177-258 | for every packet of scalar messages: the packet with its fields, values and message count cut to their widths, or `UnexpectedSize` above 1500 bytes |
| Packets.RoundTrip | src/nasa_protocol_types.cpp:177-258 | a packet of scalar messages survives encode and decode if and only if its fields and values fit, it has at most 255 messages and its frame at most 1500 bytes |
| Packets.EncodeInjective | src/nasa_protocol_types.cpp:232-258 | different well-formed packets have different frames |
| Packets.DecodeThenEncode | src/nasa_protocol_types.cpp:177-258 | an accepted frame of scalar messages is reproduced byte for byte if and only if the messages fill its body and the three unused command bits are zero |
| Packets.CanonicalFrames | src/nasa_protocol_types.cpp:177-258 | the canonical frames are exactly the encodings of well-formed packets |
| WireFormat.ValueIsWritten | src/nasa_protocol_types.cpp:106-128 | bits 9 and 10 of the number decide: both clear, one value byte; bit 9 alone, two; bit 10 alone, four, most significant first and in two's complement; both set, no value |
| WireFormat.ValueIsRead | src/nasa_protocol_types.cpp:68-84 | the value read from one, two unsigned or four signed bytes by the same bits, the cursor moving by 3, 4 or 6; and when the bytes are not all there |
| WireFormat.BufferIsWritten | src/nasa_protocol_types.cpp:127-132 | with both bits set, the bytes of the buffer follow the number |
| WireFormat.StructureIsRead | src/nasa_protocol_types.cpp:86-99 | a structure that is not the only message is empty and two bytes long; the only one takes the rest of the frame, and its buffer the bytes from the start of the frame |
| WireFormat.MessagesFollow | src/nasa_protocol_types.cpp:243-247 | the messages of a packet follow each other in order, without gaps |
| WireFormat.CommandLayout | src/nasa_protocol_types.cpp:53-58 | the three command bytes of fields that fit: information bit 7, version bits 6-5, retries bits 4-3; packet type above data type; packet number |
| WireFormat.FrameLayout | src/nasa_protocol_types.cpp:232-258 | of an encoded packet byte 0 is 0x32, the last 0x34, bytes 1-2 the size less 2, 3-5 the source, 6-8 the destination, 9-11 the command, 12 the count, then the messages and the checksum of bytes 3 on |
| WireFormat.FieldsOfFrame | src/nasa_protocol_types.cpp:207-221 | where the fields of an accepted frame are read from, bit by bit |
| WireFormat.BodyIsRead | src/nasa_protocol_types.cpp:221-227 | as many messages as byte 12 says, each read where the one before ended |
| WireFormat.DecodeOutcome | src/nasa_protocol_types.cpp:179-205 | each result of `decode` arises exactly when its check is the first to fail, with the checks and numbers spelled out |
| Stream.DecodeStream | src/nasa_protocol.cpp:62-118 | the loop over the deque returns the packets of `Parse` and leaves its residual, for every content |
| Stream.ParseAppend | src/nasa_protocol.cpp:62-118 | decoding what is there, and later the residual with more bytes appended, equals decoding everything at once |
| Stream.Fragmentation | src/nasa_protocol.cpp:62-118 | for every split of a stream into chunks, the same packets come out and the same residual is left as from decoding the whole stream |
| Stream.ParseTrace | src/nasa_protocol.cpp:65-117 | the input is partitioned in order into skipped bytes, whole frames and a residual of at most 1501 bytes, and the packets are those of the accepted frames without acknowledgements |
| Stream.ReadingDecides | src/nasa_protocol.cpp:65-117 | any partition that skips only implausible bytes, takes plausible frames whole and stops only when stuck has the decoder's packets and residual |
| WireFormat.StreamStep | src/nasa_protocol.cpp:65-116 | 16 bytes or fewer stay; a byte is skipped unless it is 0x32 before a length from 16 to 1500; such a frame is awaited or taken whole |
| WireFormat.DeliveredFrame | src/nasa_protocol.cpp:93-108 | an accepted frame is dropped exactly if the low half of byte 10 is 6 or 7, and otherwise its packet is delivered; a refused frame delivers nothing |
| WireFormat.KeptPackets | src/nasa_protocol.cpp:96-108 | packets are kept one by one and in order: those of data type 6 or 7 are left out, no others |
| Stream.NoiseIsSkipped | src/nasa_protocol.cpp:67-82 | a prefix at none of whose positions a header is plausible does not change what is decoded |
| Stream.ParseUnits | src/nasa_protocol.cpp:91-115 | a concatenation of frames is decoded frame by frame, and what follows on its own |
| Transmission.EncodeStream | src/nasa_protocol.cpp:51-60 | the frames of the packets, one after the other |
| Transmission.StreamRoundTrip | src/nasa_protocol.cpp:51-118 | decoding the encoding of any list of well-formed packets with at least one message each, and a tail of up to 16 bytes, returns the list without acknowledgements and leaves the tail |
| Transmission.StreamRoundTripAfterNoise | src/nasa_protocol.cpp:51-118 | the same behind bytes at which no header is plausible |
| Transmission.NoMessagesNoPacket | src/nasa_protocol.cpp:77-82 | a frame without messages is accepted by `Packet::decode` but never delivered by the stream decoder |
| Transmission.DetectionIsExact | src/nasa_protocol_types.cpp:200-205 | of an accepted frame damaged between length field and end byte: accepted if the flipped bits are a multiple of the generator, `CrcError` otherwise |
| Transmission.BurstDetected | src/nasa_protocol_types.cpp:200-205 | flips within 16 consecutive bits, anywhere from byte 3 to the last checksum byte, always give `CrcError` |
| Transmission.OddFlipsDetected | src/nasa_protocol_types.cpp:200-205 | every odd number of flips there gives `CrcError` |
| Transmission.TwoFlipsDetected | src/nasa_protocol_types.cpp:200-205 | any two flips there give `CrcError`, however far apart |
| Transmission.Recovery | src/nasa_protocol.cpp:75-115 | whichever frames of a stream are damaged in these ways, the decoder returns exactly the undamaged packets without acknowledgements, in order, and consumes every byte up to the tail |
| Pipeline.Linearises | src/nasa_protocol.cpp:20-49 | in every interleaving, fetched, waiting and in-flight packets together are those of one decode of the bytes seen by the last decoding section, and the input buffer is its residual followed by the bytes inserted since |
| Pipeline.DrainedRunFetchesAll | src/nasa_protocol.cpp:20-49 | after one more round of the loop and a fetch, every packet of all inserted bytes has been fetched exactly once, in order |
| Pipeline.NasaProtocol.InsertDataRx | src/nasa_protocol.cpp:20-24 | one atomic step that appends the bytes to the input buffer |
| Pipeline.NasaProtocol.LoopDecode | src/nasa_protocol.cpp:31-34 | one atomic step that decodes the input buffer into the loop's local packets |
| Pipeline.NasaProtocol.LoopPublish | src/nasa_protocol.cpp:35-38 | one atomic step that appends the local packets to the processed ones |
| Pipeline.NasaProtocol.GetPacketsRx | src/nasa_protocol.cpp:43-49 | one atomic step that hands over all processed packets and forgets them |
| Pipeline.MainLoopRound | apps/tcp_hass_bridge.cpp:54-69 | one round of the receive loop: clear above the limit, append, decode |
| Pipeline.RoundsDecodeAll | apps/tcp_hass_bridge.cpp:52-80 | with a limit of at least 1501, over any run the loop handles exactly the packets of all bytes received |
| Pipeline.BufferLimit | apps/tcp_hass_bridge.cpp:54-58 | in all runs the packets handled are exactly those of all bytes received, if and only if the limit is at least 1501 |
| Pipeline.PacketLost | apps/tcp_hass_bridge.cpp:54-69 | for every limit below 1501 and every packet whose frame has at most 1498 bytes, a run that carries the packet, in which the loop consumes every byte and handles nothing |
| Handlers.NasaMqttHandler.GetPacket | src/nasa_msg_handler.cpp:12-49 | the packets appended, the packet number taken and the new state, in all five branches |
| Handlers.NasaMqttHandler.UpdateValue | src/nasa_msg_handler.cpp:51-84 | a report of the handler's number sets the known value by message type and clears a wish it fulfils; others change nothing |
| Handlers.NasaMqttHandler.ResetRetryCounter | src/nasa_msg_handler.cpp:96-99 | the counter is 0 and nothing else changes |
| Handlers.NasaMqttHandler.UpdateValueNew | src/nasa_mqtt_handler.hpp:38-45 | what each handler class makes of a payload (the others at lines 87-97 and 125-136): which wish it sets, when the retry counter starts over, and when `std::stoi` throws, leaving everything as it was |
| Numerals.StoiOfToString | src/nasa_mqtt_handler.hpp:29-45 | reading back the decimal notation of a number yields the number if it fits into 32 bits and fails otherwise |
| Numerals.StoiDecimal | src/nasa_mqtt_handler.hpp:38-45 | white space, a sign, decimal digits not starting with 0 and any rest that is no digit give the signed number of the digits, or an exception outside 32 bits |
| Numerals.StoiHexadecimal | src/nasa_mqtt_handler.hpp:38-45 | the same for hexadecimal digits behind 0x or 0X |
| Numerals.StoiOctal | src/nasa_mqtt_handler.hpp:38-45 | the same for octal digits behind a leading 0, alone or not |
| Numerals.StoiNothing | src/nasa_mqtt_handler.hpp:38-45 | without a digit there is an exception |
| Numerals.PlaceValue | src/nasa_mqtt_handler.hpp:38-45 | each further digit multiplies what stands before it by the base |
| Numerals.DigitValues | src/nasa_mqtt_handler.hpp:38-45 | the value of every digit, and that other characters are none |
| Numerals.Notation | src/nasa_mqtt_handler.hpp:29-36 | the decimal notation digit by digit, with a sign before negative numbers |
| Numerals.StoiOfToStringAnd | src/nasa_mqtt_handler.hpp:38-45 | a written number is read back whatever text follows it |
| Numerals.StoiOfFraction | src/nasa_mqtt_handler.hpp:38-45 | "90.0" asks for 90 |
| Handlers.NasaMqttHandler.Init | src/nasa_mqtt_handler.hpp:56-75 | the option loop fills both maps of an enumeration; the last label of a raw value and the last raw value of a label stay; other kinds have no options |
| Handlers.PacketCounter.Take | src/nasa_protocol_types.cpp:165-174 | packet numbers count up modulo 256 |
| Polling.PollSends | src/nasa_msg_handler.cpp:12-49 | what a poll sends, field by field, in each case: a read-out of type 1 with value 1, a command with value and retry count, or nothing; source the configured address, destination B0.FF.20, version 2, packet type 1; and the state it leaves, a guarded or exhausted command being dropped |
| Polling.ReadOuts | src/nasa_msg_handler.cpp:14-19 | over all runs: with initial read-out a poll sends exactly one read-out while no report has told a value, and none afterwards; without it never one |
| Polling.KnownIsLastTold | src/nasa_msg_handler.cpp:60-77 | after every run the value known is the one told by the last report of the number, 16-bit messages read as signed; structures tell nothing |
| Polling.ReportTells | src/nasa_msg_handler.cpp:51-84 | a report of another number changes nothing; one of the handler's number sets the known value and clears the wish it fulfils |
| Polling.StructureTells | src/nasa_msg_handler.cpp:72-83 | a structure leaves the known value and clears a wish for it |
| Polling.WishOfPayload | src/nasa_mqtt_handler.hpp:38-45 | what a payload asks of each kind of handler (the others at lines 87-97 and 125-136); plain handlers listen only for writes and requests |
| Polling.WishIsTaken | src/nasa_hass_bridge.cpp:77-78 | a wish replaces the one before, and any payload starts the retries over |
| Polling.PublishedText | src/nasa_mqtt_handler.hpp:29-36 | the text published by each kind (the others at lines 77-85 and 116-123), unknown values and labels included |
| HandlerRuns.BurstStructure | src/nasa_msg_handler.cpp:36-48 | in every run the command packets between two resets of the retry counter carry one value and the retry counts 0, 1, ..., k with k at most 10 |
| HandlerRuns.UnansweredCommand | src/nasa_msg_handler.cpp:21-83 | a command that meets no changed report is sent exactly min(n, 11) times in n polls, numbered from 0; the twelfth poll leaves the old value wanted, until the unit repeats it |
| HandlerRuns.Provenance | src/nasa_msg_handler.cpp:12-84 | in every run each command packet carries a commanded value, or a reported one that was held when a command was dropped, and differs from the value known; with initial read-out a value is known by then, and it was reported |
| HandlerRuns.GuardedIsSilent | src/nasa_msg_handler.cpp:22-34 | a read handler and a guarded write handler send no command in any run |
| HandlerRuns.SilentBeforeFirstReport | src/nasa_msg_handler.cpp:14-19 | with initial read-out no command is sent in any run without a report |
| HandlerRuns.DroppedCommandUndoesChanges | src/nasa_msg_handler.cpp:36-83 | from any history: a command sent eleven times and dropped, then any report, then n polls; the handler answers with min(n, 11) commands for the old value if and only if the report changes the known value (to a known one, with initial read-out) and the unit has not repeated the old one since the drop; otherwise with none |
| ClosedLoop.HeardIffRepresentable | src/nasa_msg_handler.cpp:61-77 | the echo of a value is understood as that value if and only if it is 0..255, a 16-bit or a 32-bit signed number, by message type |
| ClosedLoop.RetryCountOnWire | src/nasa_protocol_types.cpp:53-56 | how the retry counts 0 to 10 arrive: count modulo 4, protocol version 2, 3 or 0, packet information cleared from 8 on |
| ClosedLoop.EchoCarriesNumber | src/nasa_protocol.cpp:51-118 | a command packet with any retry count, encoded, decoded, echoed and decoded from the stream, comes back as one packet with the handler's number and the value as the wire carries it |
| ClosedLoop.RepresentableCommandSettles | src/nasa_msg_handler.cpp:45-83 | a representable command is confirmed by its first echo: the value is known, nothing is pending, and exactly one packet is sent however long polling goes on |
| ClosedLoop.UnrepresentableCommandIsDropped | src/nasa_msg_handler.cpp:36-83 | a command that the message type cannot carry is never confirmed: it is sent in the first eleven rounds and then given up for the value the unit took it for |
| ClosedLoop.OptionMaps | src/nasa_mqtt_handler.hpp:100-104 | with distinct labels, a label leads to its raw value, and the raw value back to the label if and only if it is the last one with that value |
| ClosedLoop.LabelsRoundTrip | src/nasa_mqtt_handler.hpp:56-104 | every label comes back if and only if the raw values are distinct |
| ClosedLoop.LabelLoop | src/nasa_mqtt_handler.hpp:77-97 | a commanded label, sent, echoed and reported, is the label published |
| ClosedLoop.NumberLoop | src/nasa_mqtt_handler.hpp:29-45 | a commanded number, read from its text, sent, echoed and reported, is published as the same text |
| ClosedLoop.SwitchLoop | src/nasa_mqtt_handler.hpp:116-136 | a switch commanded ON or OFF is published as ON or OFF after the echo |
| Bridge.NasaHassBridge.AddMsg | src/nasa_hass_bridge.cpp:122-168 | chooses the handler class from type and device class (lines 208-229) and registers one fresh handler under its number, its state topic and, if it takes commands, its command topic; refuses an unknown type or a number already taken and changes nothing; the invariants of the maps are kept |
| Polling.KindOfEntity | src/nasa_hass_bridge.cpp:208-229 | the handler class for each entity type and device class |
| Polling.CommandTopics | src/nasa_hass_bridge.cpp:147-168 | which entities have a command topic |
| Bridge.NasaHassBridge.PublishToHass | src/nasa_hass_bridge.cpp:38-51 | the bridge takes the step of one report, and the handler's payload is published on its topic, retained for write and request handlers |
| Bridge.NasaHassBridge.GetNasaPackets | src/nasa_hass_bridge.cpp:53-64 | every handler is polled once, in ascending message numbers, and its packet appended |
| Bridge.NasaHassBridge.HandleMqtt | src/nasa_hass_bridge.cpp:71-84 | the bridge takes the step of one wish for the handler of the topic, whose retry counter starts over; an unknown topic changes nothing, nor does a payload that makes `std::stoi` throw |
| Bridge.PollIsOrdered | src/nasa_hass_bridge.cpp:53-64 | one poll sends at most one packet per handler, in ascending message numbers, under consecutive packet numbers modulo 256 |
| Bridge.HandlersAreIndependent | src/nasa_hass_bridge.cpp:38-87 | in every run of the bridge each handler ends in the state of a run of its own, made of the events meant for it |
| Bridge.LineCarriesLog | src/nasa_hass_bridge.cpp:38-87 | in every run the command packets sent for a message number are, in order, those of the log of that handler's own run, so burst structure and provenance hold of the packets on the line |
| Polling.ReadOutsOnLine | src/nasa_hass_bridge.cpp:38-87 | after every run of the bridge, one poll sends for a message number exactly one read-out if its handler asks for one and nothing has told a value yet, and no read-out otherwise |
| Storage.StorageDb.constructor | web/nasa_web/storage.py:43-46 | the latest row of each entity is read back, nothing is pending |
| Storage.StorageDb.Record | web/nasa_web/storage.py:69-87 | queues a sample and remembers it, or rejects it and changes nothing |
| Restart.UpsertReplaces | web/nasa_web/storage.py:94-96 | a written row replaces the one of its second, if there is one, and leaves all others |
| Storage.StorageDb.Flush | web/nasa_web/storage.py:89-105 | writes the queue in order, later samples of a second replacing earlier ones, and empties it; in the entity table the rows with queued samples show the last of them, the others stay, none comes or goes |
| Storage.LatestIsLast | web/nasa_web/storage.py:97-103 | what an entity's row is updated with is the last sample of its queue |
| Storage.StorageDb.PurgeBefore | web/nasa_web/storage.py:107-112 | of each entity exactly the rows at or after the cutoff remain; queue and memory are untouched |
| Storage.StorageDb.Close | web/nasa_web/storage.py:188-191 | leaves everything queued in the table |
| Storage.StorageDb.GetHistory | web/nasa_web/storage.py:116-160 | lead-in, then the rows of the window, or their buckets when aggregation is asked for and there are too many |
| Storage.StorageDb.ValuesAt | web/nasa_web/storage.py:162-179 | one value per query time, in order |
| Throttle.ThrottlingLosesNoState | web/nasa_web/storage.py:69-87 | in every run of record calls, unchanged samples are queued a heartbeat apart and numeric ones the minimum interval; each report is queued or represented by the sample queued last: same state within the heartbeat, or numeric within the minimum interval |
| Restart.MaintenanceIsTransparent | web/nasa_web/storage.py:69-112 | with a clock that never runs backwards and enough retention, inserting flushes, purges and restarts anywhere in a run leaves every decision of `record` as it was |
| Restart.RetentionBound | web/nasa_web/storage.py:107-112 | that holds for all runs if and only if retention + 1 reaches both the heartbeat and the minimum interval |
| Restart.ForgettingChangesDecision | web/nasa_web/storage.py:43-46 | below that bound: a run that records, flushes, purges and reopens accepts a sample it would otherwise reject |
| StepHistory.RecordingIsFaithful | web/nasa_web/storage.py:69-112 | after every run of reports, flushes, purges and restarts, an entity's rows, written or queued, show at each instant the state last reported, or nothing; a report a heartbeat or more after the last cutoff is backed by a row |
| StepHistory.HistoryKeepsText | web/nasa_web/storage.py:116-160 | within the window the raw history, lead-in included, has the step function of all rows |
| StepHistory.RawHistory | web/nasa_web/storage.py:118-134 | for any sorted rows: the last row before the window, moved to its start, then every row of the window in order, each with its value as value, minimum and maximum, and its text (the points at lines 149-159) |
| StepHistory.FewSamples | web/nasa_web/storage.py:136-159 | up to max_points samples are returned as they are, also when aggregation is asked for |
| StepHistory.TimelineShowsReports | web/nasa_web/static/js/charts.js:286-296 | from reports to segments, for every run and window: the drawn segments are contiguous and maximal, at every instant show the state last reported, and never a wrong one; nothing is drawn instead only where all reports precede the last cutoff or follow it by less than a heartbeat |
| Timeline.DrawTimeline | web/nasa_web/static/js/charts.js:286-296 | the merging loop computes `Segments` |
| Timeline.ExtendLaw | web/nasa_web/static/js/charts.js:289-295 | an empty stretch is skipped; one in the last segment's state less than a second from its end prolongs it; any other opens a segment |
| Timeline.StateNames | web/nasa_web/static/js/charts.js:289-289 | a missing state is shown as a dash |
| Timeline.TimelineDrawsSteps | web/nasa_web/static/js/charts.js:286-296 | for samples in order, the segments are nonempty, contiguous, maximal, reach from the first sample or the start to the end or now, and show the state of the last sample at or before each instant |
| Downsampling.BucketsPartition | web/nasa_web/storage.py:136-142 | every row of the window falls into exactly one bucket, in order, and the bucket times increase strictly |
| Downsampling.AverageBetween | web/nasa_web/storage.py:139-147 | the average of some values lies between their minimum and maximum |
| Downsampling.SumLaw | web/nasa_web/storage.py:139-139 | sums add up: of nothing, of one value, and of two lists; with the mean times the count being the sum in PointSummarises this fixes every average |
| Downsampling.ValuesLaw | web/nasa_web/storage.py:139-139 | rows without a number are left out of averages and extremes |
| Downsampling.NearestLaw | web/nasa_web/storage.py:145-145 | rounding goes to the nearest number, and halfway to the even one |
| Downsampling.FourPlaces | web/nasa_web/storage.py:145-145 | averages are rounded to four places |
| Downsampling.WidthIsLeast | web/nasa_web/storage.py:137-137 | the bucket width is the least one, from a second up, with which max_points buckets cover the window |
| Downsampling.QuotientTowardsZero | web/nasa_web/storage.py:139-142 | the bucket of a time is found by division towards zero |
| Downsampling.MaxTextIsGreatest | web/nasa_web/storage.py:139-148 | a bucket's text is the greatest of its texts, none only if no row has one |
| Downsampling.TextOrder | web/nasa_web/storage.py:139-139 | texts are compared at their first difference |
| Downsampling.PointSummarises | web/nasa_web/storage.py:143-148 | a bucket's point has the extremes of its values, its greatest text, and the mean, which times the count is the sum, rounded to four places |
| Downsampling.LowsOfBuckets | web/nasa_web/storage.py:143-147 | the extremes over the buckets are the extremes of the values in them |
| Downsampling.AggregatedHistory | web/nasa_web/storage.py:116-160 | at most max_points + 2 points; bucket times, cut to the start, strictly increasing in the window; extremes over the buckets equal the raw extremes; each point summarises its bucket, the exact mean lying between its extremes |
| Energy.ValueAtAnswers | web/nasa_web/storage.py:162-179 | a query finds the last value at or before its time, else the first one after it, and nothing only if there is no value at all |
| Energy.ValueAtMonotone | web/nasa_web/storage.py:162-179 | for a counter that never runs backwards, later queries never find less |
| Energy.DeltaLaw | web/nasa_web/static/js/views/energy.js:62-62 | a bar shows what the counter gained, zero if it fell, nothing if a value is missing |
| Energy.TotalLaw | web/nasa_web/static/js/views/energy.js:74-75 | the bars add up one period at a time, missing ones counting nothing |
| Energy.TotalCoversGain | web/nasa_web/static/js/views/energy.js:62-75 | for any counter the bars add up to at least its gain |
| Energy.EnergyAddsUp | web/nasa_web/static/js/views/energy.js:62-75 | for such a counter no difference is clipped, and they add up to the last value minus the first |

## Left out

- Sockets, reconnects and timeouts, the MQTT client, JSON files, logging, sleeps, thread start and shutdown: input and output around the modelled logic. Received bytes, payloads and clock readings are parameters.
- `Address::parse`, `to_uint32_t` and the formatting of packets as text; the long enumerations of known message numbers: an address is three bytes, a number 16 bits.
- Reads behind the end of a frame: when the message count overruns the frame, the decoded messages are unspecified, and `PastEnd` with the frame stands for them. The stream theorems hold for such frames too. The round trips are stated for scalar messages.
- Structure messages are decoded as the code does it, from the start of the frame; `MessageSet::encode` is modelled for messages whose payload fits the type of their number only, and the field `size` is not part of a message here.
- Numerals.StoiOfToString: `std::stoi` is modelled with the bases 8, 10 and 16 and the white space of the C locale; that its exception ends the process is left out.
- Handlers.NasaMqttHandler.UpdateValue: asks for a message whose payload fits the type of its number, as decoded messages have.
- ClosedLoop.UnrepresentableCommandIsDropped: is about 8- and 16-bit messages, because every value of the C++ `int` is representable in 32 bits; the command `INT_MAX`, which the handler takes for "nothing wanted", is not a command.
- ClosedLoop.RepresentableCommandSettles: the unit echoes each command before the next poll; lost and reordered echoes are covered only by the theorems over all runs.
- Pipeline.MainLoopRound: publishing and polling after the decoding are modelled in `Bridge`; that the loop polls only after it has received packets, and never in read-only mode, is left out.
- Pipeline.BufferLimit: a negative limit, which the comparison in C++ turns into no limit at all, is not part of the model.
- Bridge.NasaHassBridge.AddMsg: takes topic names already built; discovery payloads and subscriptions are not modelled.
- Bridge.NasaHassBridge.HandleMqtt: the empty entry that looking up an unknown topic leaves in the topic map is not modelled; it has no effect.
- The SQL database is a map from entities to rows in the order of their times. Of the table of entity configurations only the last values are modelled; the row count that `purge` returns and `stats` are left out.
- Storage.StorageDb.GetHistory: values are real numbers, so NaN and floating-point error are not modelled; the five parallel lists are one list of points.
- Storage.StorageDb.PurgeBefore: takes the cutoff; that it is the clock minus the retention is part of `Restart.Apply`.
- StepHistory.TimelineShowsReports: starts from a new, empty store, and the state of an entity is its text.
- Colours, labels and HTML of the timeline, all other charts, and the web routes.
