# A verified model of `stcbsl`

`stcbsl` programs an STC89 microcontroller through its serial bootloader. The
host is a pure function of the image and the status packet: hex text becomes an
image, an image and a status packet become a list of steps, steps become bytes
on a wire, replies come back through a resynchronising receiver, and the chip
ends up holding the image. This project models that chain in Dafny and proves
what each link keeps and what the whole chain delivers.

`dafny verify dfyconfig.toml` checks everything.

## The parts

| file | what it models |
|---|---|
| `Bytes.dfy` | bytes, machine-width integers, the wrapping 8-bit sum |
| `FrameCodec.dfy` | the wire frame: encoder, decoder, echo (`src/frame.rs`) |
| `StreamScan.dfy` | the meaning of a byte stream: one recursive scan, and an independent declarative reading of the same stream |
| `StreamTheorems.dfy` | what the scan guarantees |
| `StreamReceiver.dfy` | the `Receiver` object, refining the scan in every reachable state |
| `SessionMachine.dfy` | the `Session` object and its two calls (`src/session.rs`) |
| `Stc89.dfy`, `PlanTheorems.dfy` | status packet, timer arithmetic, planner (`src/protocol/stc89.rs`) |
| `ChipFlash.dfy` | an interpreter of erase and write frames over a flash array |
| `IntelHex.dfy`, `HexTheorems.dfy` | the Intel HEX reader and what its records mean (`src/ihex.rs`) |
| `HexText.dfy`, `HexErrors.dfy` | its text side (trimming, lines, digits), and which error a text is refused with |
| `Wire.dfy`, `Driver.dfy` | the wire, the clock and the driver loop (`src/driver.rs`) |
| `HandshakeSpec.dfy`, `PulseTiming.dfy`, `Handshake.dfy` | the handshake as a function of the environment, the timing of its pulses, and the loop that performs it (`src/driver.rs`) |
| `RunTheorems.dfy`, `FaultTheorems.dfy`, `DrainTheorems.dfy`, `NoiseTheorems.dfy` | every run of every step list, in every environment |
| `PlannedRuns.dfy`, `EndToEnd.dfy` | runs of planned sessions, and hex text to flash |
| `FlashCommand.dfy` | handshake, plan and run as one session, and the write command (`src/bin/stcbsl.rs`) |

Everything the outside world decides (what each read returns, which operation
fails, how much of a failed write got out, what the clock says) is an arbitrary
`Env`. A theorem about `RunFrom` over every `Env` is a theorem about every run
of the loop, because `Driver.RunSession` is proved to compute it; so it is with
`Shake` and the handshake, and with `Conduct` and a whole session.

The flash interpreter marks a cell that is written twice without an erase in
between as `Spoiled`, so "the flash is exactly this" also says that no address
is written twice.

## Where the code differs from what is said about it

- A four-byte header whose length is already out of range is held back although
  no continuation can be a frame (`StreamTheorems.DoomedHeaderWaits`); this is
  the only such case (`StreamTheorems.PromisingExactly`).
- The comment on the erase reply says the chip id is asserted; the code checks
  command and length only (`PlanTheorems.EraseReplyExactly`).
- An explicit erase count is not checked against the chip's capacity: 255
  blocks are planned on an 8 KiB chip (`PlanTheorems.ExplicitCountUnchecked`).
  On a known chip a planned erase stays inside the code flash exactly when it
  is not an explicit count above 32 (`PlanTheorems.PlannedEraseFitsExactly`).
- A zero-length data record extends the image and counts as data; the model
  keeps this, and the image length is the maximum over all records, empty ones
  included (`HexTheorems.ImageMeaning`); one such record alone makes an image of
  sixteen zeros (`HexTheorems.EmptyRecordExtends`).
- `is_status_frame` accepts payloads from 21 bytes on, `parse_status` wants 52:
  a status frame of 21 to 51 bytes ends the handshake with `ShortStatus`
  (`PlanTheorems.ShortStatusExactly`; a 21-byte one is
  `HandshakeSpec.ShortStatusEndsHandshake`).

## Model

| member | source | states |
|---|---|---|
| Bytes.SumIsTotal | src/frame.rs:182-185 | the wrapping fold is the plain sum of the bytes mod 256 |
| Bytes.SumUpdate | src/frame.rs:182-185 | replacing one byte moves the checksum by exactly the difference mod 256 |
| FrameCodec.EncodeBytes | src/frame.rs:109-123 | the encoder that pushes group after group yields the frame's wire form, which EncodeLayout spells out |
| FrameCodec.EncodeLayout | src/frame.rs:30-43 | the wire form in plain numbers, at every payload length: 46 B9, 6A or 68, LEN, command, payload, sum of the bytes from DIR on mod 256, 16 |
| FrameCodec.DecodeEncode | src/frame.rs:109-152 | decode inverts encode at every payload length, LEN truncation included |
| FrameCodec.EncodeDecode | src/frame.rs:129-152 | every byte string that decodes is the encoding of what it decodes to |
| FrameCodec.DecodeExact | src/frame.rs:129-152 | decode accepts exactly the encodings, each as its own frame |
| FrameCodec.RefusedExactly | src/frame.rs:129-152 | a byte string that does not decode is refused for the first thing wrong with it, with the bytes that are wrong |
| FrameCodec.CorruptionDetected | src/frame.rs:129-152 | changing any one byte of any encoding makes decode fail |
| FrameCodec.EchoOnTheWire | src/frame.rs:154-164 | a reply is an echo iff its wire form is the request's with DIR swapped and the checksum less 2 |
| StreamScan.WaitsIffOpen | src/frame.rs:308-340 | the receiver asks for more bytes exactly on prefixes that may still become a plausible frame, or on a four-byte header with LEN out of range |
| StreamScan.ActsIffJustified | src/frame.rs:284-340 | otherwise it reports exactly what stands at the front: a valid frame, a plausible run that fails to decode, or a byte of noise |
| StreamTheorems.ScanIsTheReading | src/frame.rs:284-340 | the scan is the one and only reading of a stream in which every report is justified where it stands |
| StreamTheorems.ScanConserves | src/frame.rs:284-340 | discarded bytes and emitted encodings, in order, then the rest, spell the stream |
| StreamTheorems.ScanConcat | src/frame.rs:259-306 | scanning what arrived and resuming later equals scanning it all at once |
| StreamTheorems.ChunkingIndependence | src/frame.rs:259-306 | any cut of a stream into reads gives the reports and rest of one scan |
| StreamTheorems.StreamRoundTrip | src/frame.rs:109-123 | any list of frames with payload up to 1018 bytes, in front of any bytes, is read back exactly with nothing discarded |
| StreamTheorems.RecoversIff | src/frame.rs:284-340 | a frame behind arbitrary noise is recovered with exactly the noise discarded iff no valid frame and no undecided run starts inside the noise |
| StreamTheorems.Resynchronises | src/frame.rs:284-340 | with 1025 bytes behind the noise, no valid frame starting in the noise is enough |
| StreamTheorems.MagicFreeNoise | src/frame.rs:308-340 | noise without an adjacent magic pair never delays the frame behind it, whatever follows |
| StreamTheorems.OpenIsShort | src/frame.rs:308-340 | what is held back starts like a frame and is at most 1025 bytes |
| StreamTheorems.PromisingExactly | src/frame.rs:326-332 | what is waited on is the start of something plausible, except exactly for the four-byte header with LEN out of range |
| StreamTheorems.DoomedHeaderWaits | src/frame.rs:326-332 | a concrete header that is held back although nothing can complete it |
| StreamTheorems.SeekStable | src/frame.rs:284-306 | finding the next frame does not depend on later bytes, and running dry can be resumed |
| StreamTheorems.SeekRecovers | src/frame.rs:284-306 | the next frame behind recoverable noise is found and the bytes after it are kept |
| StreamReceiver.Receiver.Feed | src/frame.rs:259-261 | feeding appends to the buffer and keeps the history equal to a scan of all bytes fed |
| StreamReceiver.Receiver.TakeDiscarded | src/frame.rs:265-267 | hands over the discarded bytes once and empties the store |
| StreamReceiver.Receiver.NextFrame | src/frame.rs:284-306 | one report after silently dropped bytes with a strictly smaller buffer, or none with the whole history scanned and an open prefix left |
| StreamReceiver.Receiver.Hunt | src/frame.rs:308-340 | drops noise only, until the buffer is open or a plausible run is complete |
| StreamReceiver.Receiver.Consume | src/frame.rs:289-303 | takes a decoded frame, or discards one byte and puts the rest of the run back |
| StreamReceiver.Exercise | src/frame.rs:254-306 | for any interleaving of feeds, pulls and collections, then draining: reports, discards and rest equal those of one scan |
| SessionMachine.AcceptsExactly | src/session.rs:237-310 | a reply is accepted iff it is the one its step's expectation describes |
| SessionMachine.ObjectsExactly | src/session.rs:242-310 | a refused reply is refused for its first fault, with what was wanted and what came |
| SessionMachine.ActsExactly | src/session.rs:191-219 | what next_action hands out in every state: awaiting, finished, or the next step's own bytes, with a reply expected iff one is then awaited |
| SessionMachine.UnaskedReply | src/session.rs:237-240 | outside a wait every reply is turned away and changes nothing |
| SessionMachine.StaysSound | src/session.rs:191-235 | every call keeps: started iff a write was handed out, finished iff the last write is behind, awaiting only answered steps |
| SessionMachine.Session.NextAction | src/session.rs:191-219 | the new fields and the action handed out, for every state |
| SessionMachine.Session.Advance | src/session.rs:221-235 | the backwards search for the last write decides exactly when writes are finished |
| SessionMachine.Session.OnReply | src/session.rs:237-313 | accepts and moves on, or reports the first objection and changes nothing; the no-reply arm is never reached |
| SessionMachine.CallsFollowPlan | src/session.rs:163-313 | for any sequence of calls the steps go out in order, none skipped or repeated, and each answered step got exactly one satisfying reply |
| SessionMachine.IndeterminateExactly | src/session.rs:315-325 | indeterminate iff a write step was handed out and a write step is still not left behind |
| SessionMachine.Session.FlashIsIndeterminate | src/session.rs:323-325 | in every valid state: a write step has been handed out and a write step is still not left behind |
| Stc89.ParseStatus | src/protocol/stc89.rs:249-301 | the word-collecting loop computes the status packet's meaning or its first error |
| Stc89.PushWrites | src/protocol/stc89.rs:417-437 | the chunk loop pushes one write step per 128 bytes, addressed 0, 128, 256, … |
| Stc89.Plan | src/protocol/stc89.rs:303-457 | the pushing loops compute the declared plan or its first error |
| PlanTheorems.ReloadExactly | src/protocol/stc89.rs:145-157 | for every frequency and baud, even where the rounding sum wraps: a reload is returned iff it is 1..255 and its tick count is nearest to f / (32 baud), ties upward |
| PlanTheorems.UnreachableExactly | src/protocol/stc89.rs:145-157 | no reload exactly when the baud is 0 or no tick count in 1..255 is nearest |
| PlanTheorems.UnreachableReports | src/protocol/stc89.rs:145-157 | an unreachable baud is reported with the reload that would have been needed |
| PlanTheorems.ReloadAntitone | src/protocol/stc89.rs:145-157 | a higher frequency never gives a higher reload |
| PlanTheorems.ReloadMonotone | src/protocol/stc89.rs:145-157 | a higher baud never gives a lower reload |
| PlanTheorems.ReloadFieldIsNegativeTicks | src/protocol/stc89.rs:159-165 | the two wire bytes read as a signed 16-bit number are reload - 256 |
| PlanTheorems.EraseGeometry | src/protocol/stc89.rs:167-170 | the block count is even, covers the image with less than 512 bytes to spare, and exceeds one byte exactly beyond 65024 bytes |
| PlanTheorems.StatusMeaning | src/protocol/stc89.rs:249-301 | every field of what an accepted packet gives: chip id, the one known chip and its sizes, option byte, clock, words, verbatim copy |
| PlanTheorems.StatusAcceptedExactly | src/protocol/stc89.rs:249-276 | a frame is accepted iff it is a status packet of at least 52 bytes whose eight words agree and give 1 to 48 MHz |
| PlanTheorems.StatusRefusedExactly | src/protocol/stc89.rs:249-276 | a refused packet is refused for the first thing wrong with it |
| PlanTheorems.ShortStatusExactly | src/protocol/stc89.rs:243-263 | the frames taken for the status packet, and exactly those of them, from 21 to 51 payload bytes, that are refused as short |
| PlanTheorems.PlannedRegionFits | src/protocol/stc89.rs:370-395 | on a known chip the region a plan erases stays inside the code flash |
| PlanTheorems.ProgramPlansExactly | src/protocol/stc89.rs:370-395 | a programming plan exists iff the baud is reachable and the image is non-empty, fits the chip and is at most 65024 bytes; EraseTooLarge exactly beyond |
| PlanTheorems.EraseOnlyPlansExactly | src/protocol/stc89.rs:370-397 | when an erase-only plan exists, for an explicit count and for the whole chip |
| PlanTheorems.PlanRefusedExactly | src/protocol/stc89.rs:318-397 | a job without a plan is refused for the first reason, with its numbers |
| PlanTheorems.ExplicitCountUnchecked | src/protocol/stc89.rs:372 | 255 blocks are planned on an 8 KiB chip |
| PlanTheorems.PlannedEraseFitsExactly | src/protocol/stc89.rs:370-397 | for every job on a known chip: a planned erase stays inside the code flash iff it is not an explicit count above 32 |
| PlanTheorems.EraseReplyExactly | src/protocol/stc89.rs:399-408 | the erase reply is accepted for its direction, command and length alone |
| PlanTheorems.PlanHasGrammar | src/protocol/stc89.rs:303-457 | every work plan is probe, commit, four link tests, one erase, the writes in address order, optional options, run |
| PlanTheorems.PlanTable | src/protocol/stc89.rs:303-473 | the same plan spelled out, every step in full: phase, command, payload bytes, expected answer, timeout, both rate changes and write address |
| PlanTheorems.IdentifyPlan | src/protocol/stc89.rs:311-317 | the plan of an identify job is the run frame alone |
| PlanTheorems.OnlyRunUnanswered | src/protocol/stc89.rs:460-473 | the last step and no other expects no reply |
| PlanTheorems.WritesAreInTheMiddle | src/protocol/stc89.rs:411-437 | the write steps are exactly those from index 7 on, one per chunk |
| PlanTheorems.PlannedFramesAreShort | src/protocol/stc89.rs:303-457 | every planned frame is short enough for the receiver |
| PlanTheorems.OpaqueRegionIgnored | src/protocol/stc89.rs:249-301 | two packets that agree on the first 21 payload bytes parse alike up to the verbatim copy |
| PlanTheorems.OpaqueRegionNeverPlanned | src/protocol/stc89.rs:303-457 | and give identical plans for every job |
| PlanTheorems.OptionByteIsAnEcho | src/protocol/stc89.rs:215-223 | any planned options frame carries the packet's own option byte and three 0xFF |
| ChipFlash.AddressRoundTrip | src/protocol/stc89.rs:200-207 | a 32-bit address survives its four big-endian bytes |
| ChipFlash.ObeyWrite | src/protocol/stc89.rs:200-207 | a write frame writes its data at its address and nowhere else |
| ChipFlash.PlanPrograms | src/protocol/stc89.rs:381-437 | after any prefix of the planned frames the flash is exactly the programmed prefix, no cell written twice, nothing touched outside the region |
| ChipFlash.WholePlanPrograms | src/protocol/stc89.rs:411-437 | a whole plan leaves the image, then 0xFF to the end of the region, then what was there |
| ChipFlash.PlanErases | src/protocol/stc89.rs:370-411 | an erase-only plan leaves the flash alone up to its erase frame and then has erased exactly its blocks |
| IntelHex.DecodeHex | src/ihex.rs:170-188 | the loop yields the bytes of the hex pairs, or the first character that is not a hex digit |
| IntelHex.HexDigits | src/ihex.rs:170-188 | accepted iff every character is a hex digit; each pair is high digit, low digit |
| IntelHex.Overlay | src/ihex.rs:113-127 | growing and overwriting the sparse memory in place gives the memory of the records so far plus this one |
| IntelHex.CountEmpty | src/ihex.rs:162 | counts exactly the addresses no record covers |
| IntelHex.LatestMeans | src/ihex.rs:113-127 | a cell holds the byte of the covering record that no later record covers |
| IntelHex.Parse | src/ihex.rs:70-168 | the whole reader computes the declared image or the first error |
| HexTheorems.ImageMeaning | src/ihex.rs:159-167 | length is the greatest record end, every byte is the last covering record's or 0, gaps and lowest address are exact |
| HexTheorems.GatherIsData | src/ihex.rs:80-157 | the records placed are those the lines above the end of file spell, each at the base then in force plus its offset |
| HexTheorems.AcceptedFile | src/ihex.rs:70-168 | an accepted text is the image of those records and is 1 to 65536 bytes long |
| HexTheorems.RecordAcceptedExactly | src/ihex.rs:93-107 | a record is accepted iff its count fits its length and its bytes sum to 0 mod 256 |
| HexTheorems.ReadsExactly | src/ihex.rs:80-107 | a line reads iff it is blank or a colon and at least ten hex digits, an even number, whose count fits and whose bytes sum to 0 mod 256 |
| HexTheorems.RecordAnyLine | src/ihex.rs:80-110 | a line that is read is read as the record its digits spell: two address bytes, kind, then the data between kind and checksum |
| HexText.TrimExactly | src/ihex.rs:82 | trimming yields the one core of a text without white space around it |
| HexText.WhiteExactly | src/ihex.rs:82 | the white space characters |
| HexText.LinesExactly | src/ihex.rs:80 | the lines of a text are the one list of newline-free lines that spells it |
| HexText.LineEndingsIrrelevant | src/ihex.rs:80-82 | a text reads the same, image or error, with either kind of line ending |
| HexText.NibbleExactly | src/ihex.rs:181-188 | the sixteen digits in both cases |
| HexText.Utf8Exactly | src/ihex.rs:89-91 | the bytes a character counts as |
| HexTheorems.LinesAcceptedExactly | src/ihex.rs:80-157 | the lines are accepted iff every one above the end of file has that format and a known kind, with its kind's own length and address limits at the base then in force |
| HexTheorems.AcceptedExactly | src/ihex.rs:70-168 | a text is accepted iff it is not blank, its lines are accepted and some data record ends beyond address 0 |
| HexErrors.HexRefusedExactly | src/ihex.rs:170-188 | digits are refused for the first character that is not one |
| HexErrors.LineRefusedExactly | src/ihex.rs:82-157 | a line is refused for the first thing wrong with it: start code, length, digits, count, checksum with the one that would have been right, kind or address |
| HexErrors.ParseRefusedExactly | src/ihex.rs:71-168 | a text is refused as empty iff blank, for its first bad line above the end of file with that line's number, or for holding no data |
| HexTheorems.EmptyRecordExtends | src/ihex.rs:113-127 | a text whose one data record is empty, at address 16, is accepted as sixteen zeros |
| HexTheorems.OrderIrrelevant | src/ihex.rs:113-127 | records that agree where they overlap may come in any order, and repeat |
| HexTheorems.PermutationIrrelevant | src/ihex.rs:113-127 | permuting pairwise disjoint records does not change the image |
| HexTheorems.RecordCorruption | src/ihex.rs:92-107 | one changed byte of a good record is always noticed |
| HexTheorems.FileCorruption | src/ihex.rs:80-107 | a file with one changed decoded byte in any record up to the end of file is refused |
| Driver.SendStep | src/driver.rs:248-280 | the send half of a step with both rate changes, and which receiver is read afterwards |
| Driver.AwaitFrame | src/driver.rs:284-313 | the read loop ends with the first valid frame, at the deadline or on a read error, whatever bad frames come between |
| Driver.HearReply | src/driver.rs:281-322 | the reply half of a step: the first valid frame in time is logged and handed to the session, and only a frame it accepts moves it on |
| Driver.RunSession | src/driver.rs:229-325 | the loop over the objects computes the whole run: result, tape and session fields; the unreachable arms are never reached, and a good end leaves the session finished |
| RunTheorems.RunSendsPlan | src/driver.rs:238-324 | in every environment the planned frames go out in order, whole and at their own rate, then at most part of the one the run stopped in |
| RunTheorems.RunHearsAnswers | src/driver.rs:281-322 | each step the run got through was answered by exactly one satisfying frame; a rejected reply is the last one heard |
| RunTheorems.RunInLockstep | src/driver.rs:238-324 | at every moment of every run: whenever a frame goes out, the replies so far are one accepted reply for each earlier step that wants one |
| RunTheorems.RunHearsAt | src/driver.rs:255-313 | when all read rates of a plan agree, nothing is read at any other rate |
| RunTheorems.RunErrorExact | src/driver.rs:327-333 | an error is wrapped as indeterminate iff the session says so, never twice; a finished run is never indeterminate |
| RunTheorems.SilentMeansLate | src/driver.rs:303-308 | a reply is given up on only when the clock has passed its deadline |
| FaultTheorems.RunErrorsEarned | src/driver.rs:238-324 | a run ends in Io iff an operation on the line failed, the last and no other; and in TimedOut(ms) only with the timeout of the step it stopped in, that long after its frame was out, no read having been made later |
| FaultTheorems.HearWaits | src/driver.rs:284-313 | waiting for any reply: every read is before the step's own deadline and takes what is there up to 512 bytes; silence is reported at or past it |
| DrainTheorems.RunFlushes | src/driver.rs:260-261 | every write is flushed before anything else is done |
| DrainTheorems.RunDrainsBeforeRetune | src/driver.rs:262-280 | with draining on, the rate never changes directly after a write, unless a step that waits for nothing and changes no rate is directly followed by one that retunes first |
| DrainTheorems.HotPairIsHot | src/driver.rs:238-262 | such a pair, reached on a line where nothing fails, does change the rate directly after a write |
| DrainTheorems.DrainsExactly | src/driver.rs:238-280 | so the step lists without such a pair are exactly those that always drain before a change of rate |
| NoiseTheorems.AwaitDelivered | src/driver.rs:284-313 | a reply in time behind noise is found, at the read that completes it, and the bytes after it are kept |
| NoiseTheorems.MagicFreeQualifies | src/driver.rs:284-313 | noise without an adjacent magic pair is such noise |
| NoiseTheorems.NoiseTolerantRun | src/driver.rs:229-325 | if every reply arrives in time behind noise, however cut into reads, the run ends well and writes exactly the plan |
| NoiseTheorems.DoneSentPlan | src/driver.rs:238-324 | a run that ends well wrote exactly the plan and heard one satisfying answer per answered step |
| NoiseTheorems.RunIsHonest | src/driver.rs:255-277 | at every moment the replies since the last retune are the first frames of the bytes read since it |
| Handshake.TakeFrames | src/driver.rs:200-221 | takes frames up to the first status frame and counts the discarded bytes |
| Handshake.PerformHandshake | src/driver.rs:158-227 | the loop performs Shake: the first status frame in all bytes read decides; without one it ends when the wait is over and not before, with bytes read = noise + ignored frames + pending; only sync bytes are written, at the handshake baud, on the beat; and the line is blamed iff an operation on it failed |
| HandshakeSpec.ShakeTells | src/driver.rs:158-227 | the same of every handshake in every environment, turn by turn |
| HandshakeSpec.HandshakeSucceeds | src/driver.rs:158-213 | if a status packet arrives within the wait, behind noise that hides no frame, on a line that holds, the handshake returns what it says |
| HandshakeSpec.HoldingLine | src/driver.rs:188-199 | on a line that never fails every turn goes through, so that being in time is enough |
| HandshakeSpec.FirstStatusDecides | src/driver.rs:200-213 | the outcome is the verdict on the first status frame heard, and no other |
| HandshakeSpec.HandshakeThroughNoise | src/driver.rs:196-221 | a status packet behind noise that hides no frame is found and decides, whatever follows it |
| HandshakeSpec.ShortStatusEndsHandshake | src/protocol/stc89.rs:243-263 | a 21-byte status frame heard alone ends the handshake with ShortStatus |
| PulseTiming.PulsesApart | src/driver.rs:186-195 | from the end of one pulse to the start of the next there are at least 30 ms |
| PulseTiming.PulseBeforeRead | src/driver.rs:186-196 | before every read there was a pulse less than 30 ms ago, unless a frame is coming in and the line has been silent for less than 400 ms |
| PlannedRuns.BaudSchedule | src/protocol/stc89.rs:318-350 | probe and commit are sent at the handshake baud, everything later at the transfer baud, and everything is read at the transfer baud |
| PlannedRuns.PlannedDrains | src/driver.rs:262-280 | with draining on, in every run of every plan the rate never changes directly after a write |
| PlannedRuns.IdentifyNeverRetunes | src/protocol/stc89.rs:311-317 | an identify session writes 46 B9 6A 00 06 82 F2 16, or a part of it if the line fails, at the rate it found; it reads nothing and changes no rate |
| PlannedRuns.DoneMeansAcked | src/session.rs:287-309 | a finished programming run had both echoes, four link acks and every block's own sum |
| PlannedRuns.IndeterminateWindow | src/session.rs:315-325 | in a planned session: exactly from handing out the first block to accepting the last block's ack |
| EndToEnd.RunHeard | src/frame.rs:109-123 | the bytes of any run are heard as the frames it got through, plus the last one only if it is complete |
| EndToEnd.AnyEndIsAPrefix | src/driver.rs:229-325 | however a programming run ends, even inside a write, the flash is an exact programmed prefix |
| EndToEnd.DoneMeansProgrammed | src/driver.rs:229-325 | a run that ends well has put the image on the chip |
| EndToEnd.NoisyRunPrograms | src/driver.rs:229-325 | if every step of a programming plan is answered in time, behind whatever noise that hides no frame, the image ends up on the chip |
| EndToEnd.PlainErrorMeansDeterminate | src/driver.rs:327-333 | an error not called indeterminate leaves the chip as it was, erased, or holding the whole image |
| EndToEnd.EraseRun | src/driver.rs:229-325 | however an erase run ends the chip is as it was or exactly the planned blocks are erased, and they are when it ends well |
| EndToEnd.IdentifyRun | src/driver.rs:229-325 | however an identify run ends the chip is as it was |
| EndToEnd.HexToFlash | src/protocol/stc89.rs:381-437 | for every hex text, status packet and plan: encoded, heard and obeyed, the frames put the file's last-record-wins bytes on the chip, 0xFF after them, nothing elsewhere |
| EndToEnd.HexRunToFlash | src/driver.rs:229-325 | and so does every run of such a plan that ends well |
| FlashCommand.PulsesSilent | src/frame.rs:308-340 | sync pulses in front of any stream do not change what is heard in it |
| FlashCommand.PerformSession | src/bin/stcbsl.rs:296-352 | handshake, plan and run of any job, composed as Conduct says |
| FlashCommand.SessionEndsExactly | src/bin/stcbsl.rs:324-340 | every session ends with the error of the stage that failed |
| FlashCommand.SessionBlames | src/bin/stcbsl.rs:324-340 | any session of any job blames the line iff an operation on it failed, the last and no other |
| FlashCommand.SessionIsHonest | src/bin/stcbsl.rs:324-340 | the whole programming session in every environment: success means text on chip and every step acknowledged, an error before the run leaves the chip alone, a plain error leaves it as it was, erased or complete, any end leaves a programmed prefix, and the rates follow the schedule |
| FlashCommand.GoodWireSucceeds | src/bin/stcbsl.rs:324-340 | in an environment where a status packet arrives within the wait and every step is then answered in time, behind any noise that hides no frame, every session of any job ends well |
| FlashCommand.EraseSessionIsHonest | src/bin/stcbsl.rs:324-340 | the whole erase session in every environment: success means the planned blocks erased, an error before the run leaves the chip alone, any end leaves it untouched or erased |
| FlashCommand.IdentifySessionIsHarmless | src/bin/stcbsl.rs:324-340 | however an identify session ends, the flash is as it was |
| FlashCommand.WriteCommand | src/bin/stcbsl.rs:204-214 | the write command from text to flash: a bad text touches nothing; otherwise all of SessionIsHonest and SessionBlames holds, and in every environment favourable in the sense of GoodWireSucceeds it succeeds |

## Left out

- Driver.RunSession: wants a session that is not awaiting a reply, as the loop's unreachable arm does; sleeping before a retune is not modelled.
- Driver.AwaitFrame: the clock is arbitrary but never runs backwards and passes every moment, so that the loop terminates.
- A build with overflow checks stops when the 64-bit rounding sum of the timer reload overflows; the model wraps around, as a build without them does.
- ChipFlash.PlanPrograms: the chip is an interpreter of erase and write frames; what silicon does beyond that is not part of this model.
- HexTheorems.FileCorruption: is stated on decoded bytes; a changed character that leaves the decoded byte alone, such as the case of a hex digit, is not a corruption.
- FlashCommand.WriteCommand: takes an open wire and the text; the command line, reading the file, opening the port and printing are not part of this model.
- `src/transport.rs` and the rest of `src/bin/`: serial port calls, the other commands, printing.
- `Display` and `Debug` text, labels, the log's free text, the hex dump helpers, the bootloader version string and the family name.
- `FrameError::ImplausibleLength`: declared in the source but never produced.
- Words inside error messages: errors carry their kind and their numbers.
