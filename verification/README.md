# Verified models of the RflySim verification platform

A Dafny model of the algorithmic core of the platform: the log receiver, the telemetry codec,
the firmware uploader, the flight-round runner, the data recorder, the point-mass simulator and
three smaller transformations. Each part is modelled in the form the program has, and what the
program is for is proved about it for all inputs, all runs or all reachable states.

`dafny verify dfyconfig.toml` checks everything.

- **Log streaming** (`ULogStreaming.dfy`, `ULogReassembly.dfy`). A log is one byte stream: a
  16-byte header and ULog messages. It is cut into packets independently of its messages and sent
  over a link that drops, repeats and reorders packets. `LogStreaming` is the receiver, with its
  sequence check, resynchronisation offset, dropout records and pending buffer. The main result,
  `Reassembly`, says what its file contains after any run. Runs start with packet 0, packets hold
  1 to 249 bytes, the header lies inside the first one, and no arrival strays 2^15 packets or more
  from the newest one.
- **MAVLink 1** (`MavlinkCodec.dfy`, `MavlinkParser.dfy`, `MavlinkLink.dfy`, `MavlinkTable.dfy`).
  Struct packing, field reordering, framing, the sender and the incremental parser. The X.25
  checksum is a parameter, so the results hold for every checksum function. `EndToEnd` takes any
  run of `send` through any chunking to the received messages, `ThroughNoise` does so with noise
  around the frames, and `DamageIsRejected` with damaged frames among them.
- **Firmware upload** (`FirmwareCrc.dfy`, `Bootloader.dfy`, `FirmwareUpload.dfy`). The table-driven
  CRC against its bitwise definition, the two acknowledgement modes against each other, and the
  uploader against a device with flash, a write position and a reply queue, which may refuse, lose
  or delay anything and, unless it is `faithful`, may also write anything. It records every command
  sent and every byte read. `Upload` states what
  every return, normal or not, has sent and, when normal, what flash holds; and that it does
  return normally with a device that is `faithful` and `reliable`.
- **Flight rounds** (`FlightRounds.dfy`). The nested try/finally of the collection runner over
  backends that may raise at any call. Every vehicle keeps a log of its calls; the results are
  about these logs: which calls are made, when an error escapes, and what is cleared.
- **Recorder** (`Recorder.dfy`). The catch-up sampling loop against an arbitrary monotone clock.
- **Point mass** (`PointMass.dfy`). The simulator as a discrete dynamical system over the reals,
  and the recursive angle wrapping. Sine and cosine of the yaw are any numbers, for the facts about
  lengths any pair with s² + c² = 1; pi is any positive number.
- **Runtime configuration** (`RuntimeConfig.dfy`). The marker block rewritten inside launch
  scripts.
- **Resampler** (`Resampler.dfy`). Averages over 2000 temperature bins, over the reals.
- **Earth model** (`EarthModel.dfy`). Earth-centred and local coordinates. An angle is any pair
  with s² + c² = 1 and a square root a positive number with the right square.

An escaping exception is a `Raised`, `MissingMarkers` or similar result value, or an `ok`/`raised`
out-parameter. Clocks, timeouts, failures and what a device answers are nondeterministic choices
or parameters.

Points where the program is not quite what one might expect, all modelled as written:

- `crc(padlen)` pads in words and stops one byte early, so it reaches `padlen` exactly only when
  the gap is a whole number of words (`PaddingIsExact`, `PaddingFallsShort`).
- A runtime value that contains the end marker survives in part the next rewrite
  (`LastWriteWins` is an if-and-only-if; `LeftoverSetting` is the failing case).
- An empty firmware image fails before anything is programmed, because the progress bar divides
  by the number of blocks; by then the flash has been erased (`Upload`).
- Errors of the serial-number and chip queries are ignored, so a late reply can be taken for that
  of the erase (`StalePairMisleads`). `PollTellsStatus` says exactly when it cannot, and `Upload`
  what holds regardless.
- Only the fault mode stored last is cleared after a round. `FirstModeStays` shows one that stays,
  `RoundClearsEverything` says exactly when none does.
- The body-frame "rotation" of the point mass adds both sine terms, so it is not one
  (`RotateStretches`); `RotateKeepsLength` and `RotateIsRotation` say exactly for which vectors and
  angles it still is. The depth bound does not depend on it.
- Half the sequence space apart, RFC 1982 leaves the order undefined; the receiver takes the
  larger number for the newer one.
- The comment of `lla2ned` lists the up coordinate as its third result; the code returns its
  negative.

## Model

| member | source | states |
|---|---|---|
| `ULogStreaming.SplitIsExact` | platform/px4/Firmware/Tools/mavlink_ulog_streaming.py:205-214 | the splitter loses no byte, every piece it yields is one whole ULog message, and what it leaves does not start with a whole one |
| `ULogStreaming.SplitInvertsConcat` | platform/px4/Firmware/Tools/mavlink_ulog_streaming.py:205-214 | whole messages followed by an incomplete tail are split back into exactly those messages and that tail |
| `ULogStreaming.NewerIsSerialOrder` | platform/px4/Firmware/Tools/mavlink_ulog_streaming.py:152-167 | the newer test is the serial order of section 3.2 of RFC 1982 with SERIAL_BITS 16 wherever that order is defined, and what it does on the undefined pairs |
| `ULogStreaming.ClassifyRecoversIndex` | platform/px4/Firmware/Tools/mavlink_ulog_streaming.py:152-167 | on packet indices less than 2^15 apart the 16-bit test recovers their true order and the exact number of packets between them |
| `ULogStreaming.DropoutStatesDuration` | platform/px4/Firmware/Tools/mavlink_ulog_streaming.py:179-183 | for every number of lost packets the record is one whole ULog message of type 79 with duration 10 ms per packet, little endian, cut at 250 |
| `ULogStreaming.LogStreaming.CheckSequence` | platform/px4/Firmware/Tools/mavlink_ulog_streaming.py:152-167 | the method computes the classification the sequence lemmas are about and changes nothing |
| `ULogStreaming.LogStreaming.WriteUlogMessages` | platform/px4/Firmware/Tools/mavlink_ulog_streaming.py:205-214 | the loop appends exactly the whole messages of its input to the file and returns the rest |
| `ULogStreaming.LogStreaming.ProcessStreamedUlogData` | platform/px4/Firmware/Tools/mavlink_ulog_streaming.py:170-202 | new state and error of the header, dropout, resynchronisation and pending-buffer branches, as the specification the run theorems use |
| `ULogStreaming.LogStreaming.CountPacket` | platform/px4/Firmware/Tools/mavlink_ulog_streaming.py:134-144 | what an accepted packet changes before its data is processed |
| `ULogStreaming.LogStreaming.ReceiveOne` | platform/px4/Firmware/Tools/mavlink_ulog_streaming.py:106-149 | reading a message and processing its data is one step of the receiver specification; it raises exactly where the specification does |
| `ULogStreaming.LogStreaming.LoopTurn` | platform/px4/Firmware/Tools/mavlink_ulog_streaming.py:86-103 | one turn of the main loop, ended by the four-second start check |
| `ULogReassembly.Reassembly` | platform/px4/Firmware/Tools/mavlink_ulog_streaming.py:170-214 | after any loss, duplication and reordering behind the first packet the file is the header and whole messages only, and its sent messages plus a complete pending one are exactly the messages wholly covered by accepted packets, in order and once each; past the header section it holds exactly one dropout record per gap, in order, each five bytes of type 79 whose little-endian duration is 10 ms per skipped packet, cut at 250; messages and records stand in stream order, a record before the pending message that is flushed with it |
| `ULogReassembly.RunKeepsInvariant` | platform/px4/Firmware/Tools/mavlink_ulog_streaming.py:106-214 | every run keeps the coverage invariant: which message is in progress, what is pending, what the file holds and in which order, which gaps are recorded, and the sequence counters |
| `ULogReassembly.AcceptedStep` | platform/px4/Firmware/Tools/mavlink_ulog_streaming.py:170-202 | one accepted packet, in sequence or after a gap, takes the coverage invariant to the one for the larger set of accepted packets |
| `ULogReassembly.ArrivalStep` | platform/px4/Firmware/Tools/mavlink_ulog_streaming.py:126-167 | an arrival is accepted exactly if its absolute index exceeds the newest one so far, with the exact number of skipped packets; otherwise it is only acknowledged |
| `ULogReassembly.SequenceAccounting` | platform/px4/Firmware/Tools/mavlink_ulog_streaming.py:126-167 | over every run `last_sequence` is the newest index (counted from the first sequence number) modulo 2^16, and dropouts plus record-setting arrivals minus one is the newest index |
| `ULogReassembly.AcksExactly` | platform/px4/Firmware/Tools/mavlink_ulog_streaming.py:126-132 | over every run the acknowledged sequence numbers are those of the arrived LOGGING_DATA_ACKED packets, repetitions included, in order of arrival |
| `ULogReassembly.Lossless` | platform/px4/Firmware/Tools/mavlink_ulog_streaming.py:193-214 | when no index is skipped, file followed by pending buffer is the sent stream up to the newest packet, byte for byte, after every arrival |
| `ULogReassembly.AnyCutting` | platform/px4/Firmware/Tools/mavlink_ulog_streaming.py:170-214 | the sender model is not restrictive: any messages cut into packets in any way, with the header in the first one, are covered by the results above |
| `ULogReassembly.SessionIsRun` | platform/px4/Firmware/Tools/mavlink_ulog_streaming.py:70-149 | with command answers and silence between the packets, the loop ends early exactly if the start is refused during the header section or overdue after four seconds, and otherwise reaches the state of its packets alone |
| `ULogReassembly.ReadMessages` | platform/px4/Firmware/Tools/mavlink_ulog_streaming.py:70-103 | the class, run over a whole session, raises exactly in those cases and otherwise reaches the state the run theorems speak about |
| `MavlinkCodec.LittleEndianRoundTrip` | platform/px4/Firmware/Tools/mavlink_px4.py:110 | little-endian packing of any width is undone by unpacking |
| `MavlinkCodec.NumbersSpelled` | platform/px4/Firmware/Tools/mavlink_px4.py:2361-2365 | what one, two, four and eight bytes stand for, the first byte counting least |
| `MavlinkCodec.SignedSpelled` | platform/px4/Firmware/Tools/mavlink_px4.py:2361-2365 | signed fields of one, two and four bytes are two's complement |
| `MavlinkCodec.FieldRoundTrip` | platform/px4/Firmware/Tools/mavlink_px4.py:2361-2365 | every field value that packs comes back, signed and unsigned, text cut or padded to its field |
| `MavlinkCodec.StructRoundTrip` | platform/px4/Firmware/Tools/mavlink_px4.py:2361-2365 | unpacking a packed struct gives the packed values, for every format |
| `MavlinkCodec.TextSurvives` | platform/px4/Firmware/Tools/mavlink_px4.py:2208-2216 | a NUL-terminated string shows the same after the trip if and only if its shown part fits the field |
| `MavlinkCodec.ReorderInverts` | platform/px4/Firmware/Tools/mavlink_px4.py:2367-2372 | for an order map that is a permutation, decoding order undoes wire order |
| `MavlinkCodec.DeliveredFields` | platform/px4/Firmware/Tools/mavlink_px4.py:2367-2378 | declared field k arrives as declared field k |
| `MavlinkCodec.FrameRoundTrip` | platform/px4/Firmware/Tools/mavlink_px4.py:101-111 | decoding a packed frame gives back identifier, addresses, sequence number and fields, for every checksum function and every table of permutations |
| `MavlinkCodec.FrameLayout` | platform/px4/Firmware/Tools/mavlink_px4.py:101-111 | a packed frame is marker 254, payload size, sequence number, both addresses, identifier, the packed fields in wire order, and the little-endian checksum of everything behind the marker and the seed |
| `MavlinkCodec.DecodeExactly` | platform/px4/Firmware/Tools/mavlink_px4.py:2332-2388 | the decoder accepts a byte string if and only if it has at least eight bytes, starts with 254, its length byte and the size of its format both fit, its identifier is in the table and its last two bytes are the checksum of the rest and the seed; the header is read off bytes 1 to 5 |
| `MavlinkCodec.WrongTrailer` | platform/px4/Firmware/Tools/mavlink_px4.py:2350-2359 | a frame that only its checksum gives away is refused for that reason |
| `MavlinkTable.RowsValid` | platform/px4/Firmware/Tools/mavlink_px4.py:2115-2200 | the heartbeat row and the row with the largest payload meet what the codec asks of a table |
| `MavlinkTable.HeartbeatOrder` | platform/px4/Firmware/Tools/mavlink_px4.py:538-539 | the order map of the heartbeat restores declaration order from the order its pack method writes |
| `MavlinkTable.HeartbeatFrame` | platform/px4/Firmware/Tools/mavlink_px4.py:538-539 | every byte of a packed heartbeat, for every checksum function: header, the nine payload bytes in wire order, checksum with seed 50 |
| `MavlinkParser.RobustParse` | platform/px4/Firmware/Tools/mavlink_px4.py:2274-2330 | robust parsing terminates, never raises, and its messages, buffer and counters are functions of the bytes |
| `MavlinkParser.RobustFeed` | platform/px4/Firmware/Tools/mavlink_px4.py:2319-2330 | one robust `parse_buffer` call is the function of the supplied bytes that the chunking and conservation results are about |
| `MavlinkParser.ChunkIndependence` | platform/px4/Firmware/Tools/mavlink_px4.py:2274-2330 | parsing a then b gives the messages, buffer and counters of parsing a followed by b at once |
| `MavlinkParser.AnyChunking` | platform/px4/Firmware/Tools/mavlink_px4.py:2319-2330 | every way of cutting the same bytes into chunks gives the same result |
| `MavlinkParser.Conservation` | platform/px4/Firmware/Tools/mavlink_px4.py:2274-2330 | raw bytes of all returned messages followed by the buffer are all bytes received, and packets plus errors is the number of messages, over every run |
| `MavlinkParser.DecoderKeepsRaw` | platform/px4/Firmware/Tools/mavlink_px4.py:2384-2388 | the decoder hands on the raw frame, good or bad, which is what conservation asks of a decoder |
| `MavlinkParser.SendAllWrites` | platform/px4/Firmware/Tools/mavlink_px4.py:2259-2265 | a run of `send` writes one frame per message end to end, the n-th with sequence number n modulo 255, and counts them |
| `MavlinkParser.EndToEnd` | platform/px4/Firmware/Tools/mavlink_px4.py:2259-2388 | frames of any run of `send`, in any chunking, come back from a robust parser as exactly the sent messages in order with equal fields, no errors and an empty buffer |
| `MavlinkParser.FramesAreSent` | platform/px4/Firmware/Tools/mavlink_px4.py:2259-2265 | the frames the noise result speaks about are all that a run of `send` from a new object writes |
| `MavlinkParser.NoiseParses` | platform/px4/Firmware/Tools/mavlink_px4.py:2281-2290 | marker-free noise is reported byte by byte, and what follows is parsed as if it were not there |
| `MavlinkParser.ThroughNoise` | platform/px4/Firmware/Tools/mavlink_px4.py:2259-2388 | with marker-free noise of any length before, between and after the frames, in any chunking, the good messages are exactly the sent ones in order, the errors exactly the noise bytes, each in its place, and nothing is left over |
| `MavlinkParser.DamageIsRejected` | platform/px4/Firmware/Tools/mavlink_px4.py:2274-2388 | frames damaged anywhere behind the length byte, with marker-free noise around them and in any chunking: the good messages of a robust parser are exactly the intact frames, in order, they alone count as packets, and every other frame and every noise byte counts as an error |
| `MavlinkParser.StrictFrame` | platform/px4/Firmware/Tools/mavlink_px4.py:2301-2317 | outside robust mode a whole frame is returned and counted if it decodes, and otherwise raises, leaving an empty buffer either way |
| `MavlinkParser.StrictNoise` | platform/px4/Firmware/Tools/mavlink_px4.py:2281-2296 | outside robust mode a stretch of noise of any length counts one error, and none if a bad prefix was already pending; nothing of it stays in the buffer |
| `MavlinkParser.StrictByte` | platform/px4/Firmware/Tools/mavlink_px4.py:2281-2296 | a noise byte raises exactly if no bad prefix is pending |
| `MavlinkParser.TwoReads` | platform/px4/Firmware/Tools/mavlink_px4.py:2267-2317 | a reader that supplies what is asked for gets every frame in two reads, of six bytes and of the announced rest |
| `MavlinkParser.PoliteStep` | platform/px4/Firmware/Tools/mavlink_px4.py:2267-2317 | supplying at most `bytes_needed` bytes keeps the buffer short of the expected length, and a frame that leaves, decoded, bad or raised, leaves nothing behind |
| `MavlinkParser.PoliteForever` | platform/px4/Firmware/Tools/mavlink_px4.py:2267-2317 | the same in every run of such a reader, robust or not, bad prefixes included |
| `MavlinkLink.MAVLink.constructor` | platform/px4/Firmware/Tools/mavlink_px4.py:2231-2252 | a new object is the fresh sender and the fresh parser the run theorems start from |
| `MavlinkLink.MAVLink.Send` | platform/px4/Firmware/Tools/mavlink_px4.py:2259-2265 | one step of the sender specification; the sequence number stays below 255 |
| `MavlinkLink.MAVLink.BytesNeeded` | platform/px4/Firmware/Tools/mavlink_px4.py:2267-2272 | never asks for less than one byte, and for what the polite-reader results assume |
| `MavlinkLink.MAVLink.SortFields` | platform/px4/Firmware/Tools/mavlink_px4.py:2367-2372 | the in-place loop over a copied list is the order-map permutation |
| `MavlinkLink.MAVLink.DecodeFrame` | platform/px4/Firmware/Tools/mavlink_px4.py:2332-2388 | the method returns what the round-trip theorem and the exact acceptance condition are about, with its error cases |
| `MavlinkLink.MAVLink.ParseChar` | platform/px4/Firmware/Tools/mavlink_px4.py:2274-2317 | one parsing stage, with state, counters, result and raised error in both modes |
| `MavlinkLink.MAVLink.ParseBuffer` | platform/px4/Firmware/Tools/mavlink_px4.py:2319-2330 | the loop terminates and is the parser specification, in both modes |
| `MavlinkLink.MAVLink.SendAllOf` | platform/px4/Firmware/Tools/mavlink_px4.py:2259-2265 | a run of calls is the run the theorems are about |
| `MavlinkLink.MAVLink.ReceiveAllOf` | platform/px4/Firmware/Tools/mavlink_px4.py:2319-2330 | a run of robust calls, one per chunk, is the run the theorems are about; none raises |
| `MavlinkLink.Relay` | platform/px4/Firmware/Tools/mavlink_px4.py:2259-2388 | one object's output, cut anywhere, given to another robust object: every sent message comes out, in order, with its fields and sequence number k modulo 255 |
| `FirmwareCrc.Crctab` | platform/px4/Firmware/Tools/px_uploader.py:95-127 | each of the 256 table entries is what eight single-bit steps make of its index |
| `FirmwareCrc.TableStepRefines` | platform/px4/Firmware/Tools/px_uploader.py:146-150 | one table step is eight single-bit steps of the reflected CRC with polynomial 0xEDB88320, for every state and byte |
| `FirmwareCrc.Crc32` | platform/px4/Firmware/Tools/px_uploader.py:146-150 | the table-driven loop computes the bitwise CRC |
| `FirmwareCrc.PadImage` | platform/px4/Firmware/Tools/px_uploader.py:139-141 | the padding loop ends at the next multiple of four and adds only 0xff |
| `FirmwareCrc.ImageCrc` | platform/px4/Firmware/Tools/px_uploader.py:152-156 | `crc(padlen)` is the bitwise CRC of the image followed by a stated number of 0xff bytes, for every image and padlen; for a flash of whole words that holds the image, of the image padded to exactly that size |
| `FirmwareCrc.PaddingIsExact` | platform/px4/Firmware/Tools/px_uploader.py:152-156 | the padded length is exactly padlen if and only if the gap is a non-negative whole number of words |
| `FirmwareCrc.PaddingFallsShort` | platform/px4/Firmware/Tools/px_uploader.py:152-156 | a concrete gap that is not a whole number of words is left short |
| `FirmwareCrc.WholeWordPadding` | platform/px4/Firmware/Tools/px_uploader.py:152-156 | for flash sizes divisible by four the padding fills the flash exactly if the image fits, and is empty if it does not |
| `Bootloader.SplitLenExact` | platform/px4/Firmware/Tools/px_uploader.py:485-486 | the pieces put end to end are the image |
| `Bootloader.SplitLenShape` | platform/px4/Firmware/Tools/px_uploader.py:485-486 | all pieces but the last have the full length |
| `Bootloader.PerBlockAccepts` | platform/px4/Firmware/Tools/px_uploader.py:276-288 | per-block acknowledgement accepts exactly the reply streams with one INSYNC, OK pair per block |
| `Bootloader.WindowedAccepts` | platform/px4/Firmware/Tools/px_uploader.py:293-306 | windowed acknowledgement from any point of any window accepts exactly those streams |
| `Bootloader.SameReplies` | platform/px4/Firmware/Tools/px_uploader.py:437-517 | both modes accept the same reply streams and leave the same bytes unread, for any number of blocks |
| `FirmwareUpload.WordRoundTrip` | platform/px4/Firmware/Tools/px_uploader.py:271-274 | the word a device reports is the word the uploader reads |
| `FirmwareUpload.WordOfBytes` | platform/px4/Firmware/Tools/px_uploader.py:271-274 | byte k of a word that is read holds its bits 8k to 8k + 7, and no two byte strings give the same word |
| `FirmwareUpload.PairsAppend` | platform/px4/Firmware/Tools/px_uploader.py:293-306 | one more reply pair is accepted exactly if its status is OK |
| `FirmwareUpload.Uploader.GetSync` | platform/px4/Firmware/Tools/px_uploader.py:276-288 | success is acceptance by the per-block check of the reply stream, consuming the same bytes; with a reliable device exactly then |
| `FirmwareUpload.Uploader.AckSyncWindow` | platform/px4/Firmware/Tools/px_uploader.py:293-306 | success is acceptance by the window check of the reply stream, consuming the same bytes; with a reliable device exactly then |
| `FirmwareUpload.Uploader.ProgramMulti` | platform/px4/Firmware/Tools/px_uploader.py:437-455 | one block is sent; if all unread replies are good then everything sent so far is in flash, and with a reliable device and room they are good |
| `FirmwareUpload.Uploader.ProgramNext` | platform/px4/Firmware/Tools/px_uploader.py:499-513 | one block and, at every 256th, the window check, with exactly 512 reply bytes in it: never are more outstanding |
| `FirmwareUpload.Uploader.Program` | platform/px4/Firmware/Tools/px_uploader.py:489-517 | a normal return means every block was written and every reply was checked once, in windowed mode by one window of 512 bytes per 256 blocks and one for the rest; a reliable device with room for a non-empty image makes it return normally, an empty image never |
| `FirmwareUpload.Uploader.Acknowledge` | platform/px4/Firmware/Tools/px_uploader.py:509-516 | the outstanding replies are checked; the window is closed only if they are good |
| `FirmwareUpload.Uploader.TrySync` | platform/px4/Firmware/Tools/px_uploader.py:318-337 | yes exactly on a good pair, the silicon error exactly on its code, otherwise not yet, when the bytes are delivered; nothing is consumed beyond |
| `FirmwareUpload.Uploader.Erase` | platform/px4/Firmware/Tools/px_uploader.py:411-434 | with an empty reply queue success means the device reported the erase, however many polls were lost before; a reliable device makes it succeed |
| `FirmwareUpload.PollTellsStatus` | platform/px4/Firmware/Tools/px_uploader.py:318-332 | a poll tells the status of the erase, whatever it is, if and only if no stale reply is queued |
| `FirmwareUpload.Uploader.VerifyMulti` | platform/px4/Firmware/Tools/px_uploader.py:458-472 | success means flash holds the block at the read position, a bare status pair cannot pass for it; with a reliable device flash that holds it passes |
| `FirmwareUpload.Uploader.VerifyV2` | platform/px4/Firmware/Tools/px_uploader.py:520-534 | success means flash begins with the image; with a reliable device such flash passes |
| `FirmwareUpload.Uploader.VerifyV3` | platform/px4/Firmware/Tools/px_uploader.py:536-548 | success means the CRC of the whole flash is that of the padded image; with a reliable device exactly then |
| `FirmwareUpload.StalePairMisleads` | platform/px4/Firmware/Tools/px_uploader.py:318-332 | a late good pair in front of a failed erase is taken for its success |
| `FirmwareUpload.Uploader.Checks` | platform/px4/Firmware/Tools/px_uploader.py:573-655 | the checks pass if and only if board, size, configuration and erratum conditions hold (force waiving all but size) and the board describes itself; unless the device is orderly, queries whose failure is ignored may leave stale replies |
| `FirmwareUpload.Uploader.Prepare` | platform/px4/Firmware/Tools/px_uploader.py:573-657 | queries and erase, in that order, the erase only after every check passed; success means a good reply to the erase was the last thing read |
| `FirmwareUpload.Uploader.Flash` | platform/px4/Firmware/Tools/px_uploader.py:657-658 | what is sent is a beginning of queries, erase and all blocks, all of it on success, with one good reply read for the erase and one for each block in a row |
| `FirmwareUpload.Uploader.SendBootDelay` | platform/px4/Firmware/Tools/px_uploader.py:550-554 | a delay outside a signed byte raises before anything is sent; success means its good reply was read |
| `FirmwareUpload.Uploader.SendReboot` | platform/px4/Firmware/Tools/px_uploader.py:475-482 | from revision 3 on success means a good reply to the reboot was read, and that the device accepted it if nothing stale was queued |
| `FirmwareUpload.Uploader.Release` | platform/px4/Firmware/Tools/px_uploader.py:660-669 | what is sent is a beginning of verification, boot delay and reboot, all of it on success; reboot only after the confirming replies were read, and success only after the one for the reboot itself from revision 3 on |
| `FirmwareUpload.Uploader.Upload` | platform/px4/Firmware/Tools/px_uploader.py:573-671 | on every return what was sent is a beginning of the one script of an upload, all of it on a normal return; erase only to a suitable board; reboot only after one good reply for the erase, one per block, those of the verification and that of the boot delay were read in a row; a normal return ends with the good reply to the reboot from revision 3 on. If nothing stale was queued at the erase, as with every orderly device, reboot means verified flash, on a faithful device the image followed by 0xff, and a normal return means that the device refused nothing from the erase on, save the reboot before revision 3; a sound device accepts every non-empty image that fits, and an empty one fails after the erase |
| `FlightRounds.Vehicle.FillControls` | platform/sdk/backends/real_vehicle.py:306-310 | sixteen slots, filled from the front, zero behind, surplus ignored |
| `FlightRounds.Vehicle.SendInjection` | platform/sdk/backends/real_vehicle.py:302-312 | whatever fails, the mode is stored before anything is sent and the message carries mode, flag and controls |
| `FlightRounds.Vehicle.SendClearing` | platform/sdk/backends/real_vehicle.py:314-319 | the message sent names the stored mode, or the explicit one, with flag 0 and zero controls |
| `FlightRounds.Vehicle.Invoke` | platform/collection/collection_runner.py:322-327 | one logged call; the stored mode stays the one injected most recently over the whole log |
| `FlightRounds.CollectionRunner.ParallelCall` | platform/collection/collection_runner.py:312-336 | every target is called as often as it is listed, whichever calls fail, and an error escapes exactly if some call raised and errors are not tolerated |
| `FlightRounds.CollectionRunner.SelectTargets` | platform/collection/collection_runner.py:219-238 | raises exactly on an unknown name; otherwise the named vehicles in order, or all, or for fault actions the real ones if any |
| `FlightRounds.CollectionRunner.ExecuteStep` | platform/collection/collection_runner.py:191-217 | every vehicle gets exactly the calls the step asks for, none if it is refused; it raises exactly if the step is refused, a call raised or the recorder could not be started; a recorder appears only through a successful arm |
| `FlightRounds.CollectionRunner.FlySteps` | platform/collection/collection_runner.py:171-173 | the steps run in order up to the first that raises, none before it was refused or had a call raise, and every vehicle's calls are exactly those of the steps run |
| `FlightRounds.CollectionRunner.StopRecording` | platform/collection/collection_runner.py:270-276 | no recorder remains and one workbook is added exactly if one was recording |
| `FlightRounds.CollectionRunner.ClearRealFaults` | platform/collection/collection_runner.py:278-284 | `clear_fault` without a mode is called on every vehicle declared real, errors tolerated |
| `FlightRounds.CollectionRunner.CallsClear` | platform/sdk/backends/real_vehicle.py:314-319 | those calls send, for each real vehicle, flag 0 and zero controls for the mode injected most recently, unless they raise |
| `FlightRounds.CollectionRunner.RunOneTimeline` | platform/collection/collection_runner.py:163-180 | every vehicle's calls are those of the steps run, then the clearing; the round raises exactly if a step was refused, a call of a step raised or the recorder could not be started; with recording enabled it adds one workbook exactly if a recorder was created, without raising exactly if the timeline arms, and none with recording disabled; however it ends, no recorder is active and each real vehicle's last call is a clearing of its last injected mode |
| `FlightRounds.CollectionRunner.Run` | platform/collection/collection_runner.py:137-161 | for every list of timelines and every failure pattern, the calls of each vehicle are one initialise, the timelines flown in order, each with its clearing, and one shutdown; all timelines are flown if nothing raises, and an error escapes exactly if a step was refused, an untolerated call raised or a recorder could not be started; with recording enabled there is one workbook per round that created a recorder, which every complete round that arms did and no round without an arm step |
| `FlightRounds.CollectionRunner.OnlyCleanupTolerated` | platform/collection/collection_runner.py:153-161 | of all calls of a collection only the clearing after a round and the one shutdown at the end may fail unnoticed |
| `FlightRounds.OpenExactly` | platform/sdk/backends/real_vehicle.py:302-319 | every injected mode has a later clearing naming it if and only if the list of open modes, kept call by call, is empty |
| `FlightRounds.RoundClearsEverything` | platform/sdk/backends/real_vehicle.py:314-319 | the clearing that ends a round leaves no injected mode uncleared if and only if no mode but the one stored last was open |
| `FlightRounds.FirstModeStays` | platform/sdk/backends/real_vehicle.py:302-319 | with two modes in one round the first is never cleared, whether or not the message for the second was sent |
| `FlightRounds.SettledStays` | platform/collection/collection_runner.py:137-161 | calls other than injections keep a cleared log cleared |
| `Recorder.SampleKeepsSchedule` | platform/sdk/core/logging.py:137-144 | taking a due sample and rescheduling keeps the schedule invariant, caught up or skipped |
| `Recorder.LoopOnSchedule` | platform/sdk/core/logging.py:132-144 | for every monotone clock and any number of turns the samples are never early, ordered and spaced, and the next due time fits them |
| `Recorder.NoSampleMissed` | platform/sdk/core/logging.py:136-144 | if clock readings are at most g apart, consecutive samples are at most period + 3 g apart and the last is never older than period + 2 g |
| `Recorder.RateBound` | platform/sdk/core/logging.py:132-144 | no time window of length W holds more than W/period + 3 loop samples |
| `Recorder.NoDrift` | platform/sdk/core/logging.py:133-144 | if clock readings are at most g apart and two such steps fit into a period, sample k lies within g after start + k periods, however long the loop runs |
| `Recorder.StallWaits` | platform/sdk/core/logging.py:141-144 | after a sample more than two periods late nothing is caught up: every further one is at least a whole period later, however long the loop runs on |
| `Recorder.RealtimeDataRecorder.Period` | platform/sdk/core/logging.py:134 | the period times the configured rate is one, and for rates below one in a million seconds the period is a million seconds |
| `Recorder.RealtimeDataRecorder.SampleOnce` | platform/sdk/core/logging.py:146-168 | every vehicle gets one row, numbered and timed, whether or not its snapshot raises |
| `Recorder.RealtimeDataRecorder.Start` | platform/sdk/core/logging.py:107-120 | one sample at the start time, only when enabled and not yet started |
| `Recorder.RealtimeDataRecorder.RunLoop` | platform/sdk/core/logging.py:132-144 | samples are taken exactly at the readings that are due; for every monotone clock sample k is not before start + k / rate and every window of length W holds at most W · rate + 3 of them |
| `PointMass.YawSat` | platform/sdk/rflysim_legacy/PX4MavCtrlV4.py:570-579 | terminates for every angle, lands in [-pi, pi] and leaves angles there alone |
| `PointMass.YawSatIsCongruent` | platform/sdk/rflysim_legacy/PX4MavCtrlV4.py:570-579 | the wrapped angle differs from the given one by whole turns |
| `PointMass.RotateKeepsLength` | platform/sdk/rflysim_legacy/PX4MavCtrlV4.py:629-631 | the body-to-earth map keeps the horizontal length of a vector if and only if the vector lies along a body axis or the yaw is a multiple of a quarter turn |
| `PointMass.RotateIsRotation` | platform/sdk/rflysim_legacy/PX4MavCtrlV4.py:629-631 | it is the rotation by the yaw if and only if the sideways component or the sine is zero |
| `PointMass.RotateStretches` | platform/sdk/rflysim_legacy/PX4MavCtrlV4.py:615-617 | a concrete vector and yaw whose squared length it takes from 2 to 3.92 |
| `PointMass.PositionModeAims` | platform/sdk/rflysim_legacy/PX4MavCtrlV4.py:613-621 | in position mode the wanted speed is half the way to the target per second on each axis, cut at the top speed, and the wanted turn twice the heading difference, cut at an eighth of a turn |
| `PointMass.OtherModes` | platform/sdk/rflysim_legacy/PX4MavCtrlV4.py:610-625 | in speed mode the command is wanted as it is, with no mode nothing |
| `PointMass.TickEases` | platform/sdk/rflysim_legacy/PX4MavCtrlV4.py:627-637 | off the ground a tick makes up three percent of the difference to the wanted speed and turn, within the limits of each axis |
| `PointMass.TickStops` | platform/sdk/rflysim_legacy/PX4MavCtrlV4.py:639-642 | pressed into the ground everything stops and the position stays |
| `PointMass.TickMoves` | platform/sdk/rflysim_legacy/PX4MavCtrlV4.py:644-649 | a tick moves by the new speed and turns by the new rate, up to whole turns |
| `PointMass.TargetIsHeld` | platform/sdk/rflysim_legacy/PX4MavCtrlV4.py:603-649 | a vehicle at rest at its target and on course stays exactly there |
| `PointMass.TickStaysLimited` | platform/sdk/rflysim_legacy/PX4MavCtrlV4.py:627-649 | after any tick, from any state and under any command, speeds, yaw rate and yaw are within their limits |
| `PointMass.TickStaysShallow` | platform/sdk/rflysim_legacy/PX4MavCtrlV4.py:603-646 | every tick of length up to D, under every command, keeps the potential z + (97/3) D max(v, 0) bounded by (1000/3) D below ground |
| `PointMass.DepthBounded` | platform/sdk/rflysim_legacy/PX4MavCtrlV4.py:639-646 | the potential bounds the down position by (1000/3) D |
| `PointMass.PointMassModel.Advance` | platform/sdk/rflysim_legacy/PX4MavCtrlV4.py:603-649 | one turn of the loop is one tick of the specification |
| `PointMass.PointMassModel.Simulate` | platform/sdk/rflysim_legacy/PX4MavCtrlV4.py:581-649 | for every command sequence and tick lengths in [0, D], from rest on or above ground, the down position never exceeds (1000/3) D |
| `RuntimeConfig.WriteRuntimeConfig` | platform/sdk/core/toolchain.py:113-147 | the method with its line-building loop is the splice of the rendered settings between the first markers, with its error case |
| `RuntimeConfig.WritableExactly` | platform/sdk/core/toolchain.py:125-128 | the rewrite succeeds if and only if some begin marker is followed by an end marker that does not overlap it |
| `RuntimeConfig.OutsideUnchanged` | platform/sdk/core/toolchain.py:127-129 | text before the first begin marker and after the first end marker behind it is unchanged |
| `RuntimeConfig.BatchScript` | platform/sdk/core/toolchain.py:116-129 | a rewritten batch file, spelled out: its two markers, between them one SET line per given key in order, everything else as before |
| `RuntimeConfig.ShellScript` | platform/sdk/core/toolchain.py:134-147 | the same for a shell script, with its markers and export lines |
| `RuntimeConfig.LastWriteWins` | platform/sdk/core/toolchain.py:113-147 | writing e1 then e2 equals writing e2 alone if and only if no written value of e1 contains the end marker; the second write never fails |
| `RuntimeConfig.OwnEndFirst` | platform/sdk/core/toolchain.py:117-129 | the first end marker behind the begin marker is the block's own if and only if no value contains one |
| `RuntimeConfig.LeftoverSetting` | platform/sdk/core/toolchain.py:113-147 | a value that holds the end marker does break last-write-wins, in every writable script |
| `Resampler.BinIsRight` | platform/px4/Firmware/Tools/process_sensor_caldata.py:47-53 | every sample between minimum and maximum lands in a valid bin, between that bin's edges |
| `Resampler.Widths` | platform/px4/Firmware/Tools/process_sensor_caldata.py:40 | the intervals together are the range |
| `Resampler.BinsAreNarrow` | platform/px4/Firmware/Tools/process_sensor_caldata.py:47-56 | the samples behind one average lie within one interval of each other |
| `Resampler.BinsConserve` | platform/px4/Firmware/Tools/process_sensor_caldata.py:47-56 | bin sums add up to the input sum and bin counts to the number of samples |
| `Resampler.MeansIncrease` | platform/px4/Firmware/Tools/process_sensor_caldata.py:58-64 | averages of non-empty bins strictly increase and stay below the next edge |
| `Resampler.ResampleConserves` | platform/px4/Firmware/Tools/process_sensor_caldata.py:36-65 | for every non-empty input there are positive counts, summing to the input length, with which the outputs sum to the inputs, and the output abscissae strictly increase; for any number of bins |
| `Resampler.LineIsKept` | platform/px4/Firmware/Tools/process_sensor_caldata.py:36-65 | readings on a straight line are averaged onto the same line, for every line and any number of bins |
| `Resampler.ResampleWithDeltaX` | platform/px4/Firmware/Tools/process_sensor_caldata.py:36-65 | the array program with 2000 bins is that specification, equal abscissae and both errors included |
| `EarthModel.MutualInverses` | platform/sdk/rflysim_legacy/EarthModel.py:193-257 | `ecef2enu` and `enu2ecef` with the same reference undo each other, both ways |
| `EarthModel.DistancesPreserved` | platform/sdk/rflysim_legacy/EarthModel.py:193-257 | both transforms preserve distances between any two points |
| `EarthModel.NedMeasuresDistance` | platform/sdk/rflysim_legacy/EarthModel.py:340-377 | north-east-down offsets measure the Earth-centred distance, from either end and in any common reference |
| `EarthModel.StraightDown` | platform/sdk/rflysim_legacy/EarthModel.py:369-377 | a site over the reference is straight down by the height difference, so `lla2ned(p, p)` is the zero vector |
| `EarthModel.NedAxes` | platform/sdk/rflysim_legacy/EarthModel.py:369-377 | the three offsets are the parts of the Earth-centred offset along the local north, east and down directions, in that order |
| `EarthModel.SeaLevelIsTheEllipsoid` | platform/sdk/rflysim_legacy/EarthModel.py:146-163 | a site of height zero lies on the ellipsoid with the model's two semi-axes |

## Left out

- Sockets, serial ports, Redis, ROS, subprocesses, sleeping, console output and command lines.
- `mavutil.x25crc`: a parameter of the codec.
- Generated message classes and their encode and send methods: one pattern, modelled generically,
  with two concrete table rows.
- The two swarm messages with array formats, which have more struct items than order-map entries.
- MAVLink floats are 32-bit patterns; conversion between patterns and numbers is not modelled.
- MAVLink callbacks, and the construction of message objects after decoding.
- Chunking and conservation outside robust mode, where a raised error discards the messages
  collected so far.
- ULog heartbeats and the data-rate display.
- MavlinkTable.RowsValid: covers two of the table's rows; the codec results hold for every table
  of permutations.
- `identify` and the search for the serial interface: the uploader's board data are given.
- The one-time-programmable, serial-number and chip queries one by one: they are one query, which
  the board answers or not and which may leave any bytes behind.
- Devices that do not answer every later command with one INSYNC, status pair in order, and stale
  replies from before an upload starts.
- Retrying, baud rates and the reboot into the bootloader.
- FlightRounds.CollectionRunner.ParallelCall: one thread per target is modelled as one call per
  target in some order; calls of one step on the same vehicle do not interleave.
- Failures while writing the workbook or collecting offline logs, and a recorder thread that
  outlives its join timeout.
- Digital-twin and dry-run backends beyond the fact that their calls may raise; toolchain start
  and stop beyond whether the start succeeds.
- Recorder rows hold index, time, vehicle and whether the snapshot failed; payload columns,
  metadata, wall time and the spreadsheet itself are not modelled.
- Real numbers stand for floating point in the recorder, the point mass, the resampler and the
  Earth model: rounding, overflow and NaN are not modelled.
- Roll, pitch and the display messages of the point mass; they do not feed back into the motion.
- File encodings and newline translation of the launch scripts, and the choice of writer by file
  suffix.
- `ecef2lla` and the transforms through it: arctangents and cube roots.
- Setpoint setters, packet unpacking, plotting, curve fitting, report and key tooling, and the
  verification runner.
