# A verified model of the rmvci driver

rmvci is a user-space driver for the Mini-VCI diagnostic cable. This project models its
protocol layers in Dafny and proves what each layer promises to the one above it:

- **ISO-TP** (`IsoTp*.dfy`): the transmit and receive machines of ISO 15765-2:2016 sections
  9.6.2 to 9.6.5, with optional extended addressing. `IsoTpFrames` says what a payload is sent
  as and what a frame is read as; `IsoTpSteps` is one step of each machine on values;
  `IsoTpMachine` holds the machines as the driver runs them, with fields updated in place and
  8-bit counters that wrap, and ties every method to those steps. `IsoTpTransmit` and
  `IsoTpReceive` are about all runs of one machine against any peer, `IsoTpSystem` and
  `IsoTpProgress` about the two of them joined by queues, `IsoTpHost` about the loops that run
  them over a polled bus, `IsoTpSendRuns` about when those loops end and what rules they obey,
  and `IsoTpTraffic` about the other traffic on the bus. `IsoTpRules` and `IsoTpWire` say the
  same by the bytes: what any run of a machine, and any log of a driver, makes of the next frame
  or message, without referring to a machine's state or to how the model reads frames.
- **Codec** (`Checksum`, `Codec`, `Inner`, `Framing`, `Stack`): checksums, outer frames, block
  encryption under any keyed permutation of 8-byte blocks, inner commands and replies, and the
  two ways a byte stream is cut into frames.
- **Session** (`Link`, `Session`): the handshake with an adapter whose OPEN command *toggles*
  encryption, and the actor that owns the port.
- **Channels** (`Channel`, `KLine`): size guards and reads of a channel, and ISO 14230 requests
  over it.
- **Network proxy** (`NetProxy`): the transport primitives carried over TCP to a bridge.

The environment is arbitrary everywhere: peers send any frames, reads come in any pieces,
exchanges fail or answer anything, clocks advance as they like. Byte strings stand for text,
times are whole microseconds (milliseconds in `Channel` and `KLine`).

Where the obvious claim is not true, the exact condition is proved instead:

- The transmitter's 8-bit frame counter overflows in an unlimited block in some run exactly
  from 1799 bytes of payload on (1542 with extended addressing). The receiver's own counter
  can be made to overflow at any length if it asks for unlimited blocks, because an accepted
  frame need not carry data. Release arithmetic wraps, and neither wrapped value is consulted.
- The limit on WAIT frames holds exactly when it is below 255. At 255 a peer that says nothing
  but WAIT keeps `host_send` going forever, unless one frame is enough or N_Bs is zero; the
  loop ends for every peer in exactly the other cases (`IsoTpSendRuns.SendEndsExactly`).
- Two matching machines can deadlock: exactly when the payload takes more than one frame and
  either N_Bs is zero, or the advertised STmin is longer than the receiver's own N_Cr and two
  consecutive frames can share a block, that is, there are more than two frames and the block
  size is not 1 (`IsoTpProgress.DeadlockFreeExactly`).
- A lost run of consecutive frames is noticed by its sequence number exactly when its length is
  not a multiple of 16; the byte count catches the other runs, so no loss corrupts a payload.
- `wedged` does not imply a count of three silent exchanges. It fails exactly when a connect
  meets a count of two, its first attempt is silent and its retry is not
  (`Session.CountFallsBehind`); no other request and no idle poll does it. (The teardown, after
  which there are no requests, is not counted here.)
- A failed handshake leaves the old key in place. Host and adapter are sure to agree on it
  afterwards exactly if the handshake wrote nothing (`Link.AgreementExactly`): with the reset
  arrived and the identify lost the adapter is in plaintext (`Link.LostHandshake`). From then on
  they agree again with the next successful handshake.
- A caller of the network transport is told its own outcome exactly as long as no response was
  missed on the connection: a late response is read as the answer to the next request, and so on
  for every later one (`NetProxy.OwnOutcomeExactly`).
- A K-line header with a length byte of its own can be built and read back, but never sent: the
  channel's 64-byte bound admits 61 bytes of request.
- The comment at `rmvci-net/src/wire.rs:52-53` speaks of a disconnect at the length field; the
  bridge treats one in the middle of a frame as a clean end too (`NetProxy.ServeRequests`).

`dafny verify dfyconfig.toml` checks everything. Contracts that state-changing methods carry
are stated over functions (`TxNext`, `RxOnFrame`, `SendAfter`, `CutAll`, `Serve`, ...) whose own
properties the lemmas prove. What such a function takes from bytes or puts into them is in turn
characterised by the bytes themselves, in both directions (`...Exactly`, `...Bytes`, `...Layout`).

## Model

| member | source | states |
|---|---|---|
| `IsoTpFrames.DecodeRoundsUp` | rmvci-core/src/isotp/machine.rs:22-28 | the pacing applied is never shorter than the gap a defined STmin byte asks for, less than a millisecond longer, and 127 ms for reserved values |
| `IsoTpFrames.FrameCountIsExact` | rmvci-core/src/isotp/machine.rs:159-182 | 1 + ceil((n - first) / cf_max) frames hold the payload and one frame fewer does not |
| `IsoTpFrames.FrameSizes` | rmvci-core/src/isotp/machine.rs:131-188 | every frame of every segmentation has 1 to 8 bytes, so with its identifier it passes the size guard for raw CAN |
| `IsoTpFrames.FrameReadsBack` | rmvci-core/src/isotp/machine.rs:309-356 | what a receiver with the same address byte reads in frame k: its kind, its number k mod 16 and its bytes of the payload |
| `IsoTpFrames.RoundTrip` | rmvci-core/src/isotp/machine.rs:131-188 | reassembly inverts segmentation for every payload of 1 to 4095 bytes, every padding and every address byte |
| `IsoTpMachine.TxMachine.WithAddr` | rmvci-core/src/isotp/machine.rs:98-129 | exactly the payloads of 1 to 4095 bytes make a transmitter, with the two errors told apart |
| `IsoTpMachine.TxMachine.Next` | rmvci-core/src/isotp/machine.rs:131-188 | the fields and wrapped counters go where the step function says, and the frame sent is the next one of the segmentation |
| `IsoTpMachine.TxMachine.SendConsecutive` | rmvci-core/src/isotp/machine.rs:159-184 | a consecutive frame built at the current offset and number is frame k of the segmentation, and the block ends where the true count says |
| `IsoTpMachine.TxMachine.OnFrame` | rmvci-core/src/isotp/machine.rs:190-236 | flow control is taken as the step function says, a grant, overflow, reserved status or cut-short frame by its bytes and only while waiting; nothing else changes the machine but the WAIT count |
| `IsoTpMachine.ConsecutiveRepresents` | rmvci-core/src/isotp/machine.rs:159-184 | the in-place update of offset, number and counter keeps the relation between fields and frames sent |
| `IsoTpMachine.CountersInStep` | rmvci-core/src/isotp/machine.rs:171-182 | the wrapped counters follow the true counts, and the block test never sees a wrapped one |
| `IsoTpMachine.RxMachine.CheckTimeout` | rmvci-core/src/isotp/machine.rs:300-307 | CfTimeout exactly when a transfer is under way and more than N_Cr has passed since its last frame was heard, over everything the receiver was ever given |
| `IsoTpMachine.RxMachine.OnFrame` | rmvci-core/src/isotp/machine.rs:309-355 | the receiver's fields and answer are those of the step function after all frames given so far, whatever they were |
| `IsoTpMachine.RxMachine.OnConsecutive` | rmvci-core/src/isotp/machine.rs:356-391 | the same for consecutive frames, with expected number and block counter modulo 16 and 256 of the true counts |
| `IsoTpTransmit.TraceSound` | rmvci-core/src/isotp/machine.rs:131-236 | every run against any peer and clock obeys the rules: order of frames, grants, waits and errors, N_Bs and STmin |
| `IsoTpTransmit.TransmitRefinesSegment` | rmvci-core/src/isotp/machine.rs:131-188 | the frames sent are always a prefix of the segmentation, and all of it exactly when the machine is done |
| `IsoTpTransmit.BlockIsExact` | rmvci-core/src/isotp/machine.rs:171-184 | after a grant of b frames the sender stops after exactly b, and after a grant of 0 not before the end |
| `IsoTpTransmit.PacingHolds` | rmvci-core/src/isotp/machine.rs:152-162 | consecutive frames of one block are at least the granted STmin apart on any clock |
| `IsoTpTransmit.WaitLimitExact` | rmvci-core/src/isotp/machine.rs:224-231 | a run of WAITs is honoured if and only if the limit is not passed or is 255 |
| `IsoTpTransmit.CounterWrapsExactly` | rmvci-core/src/isotp/machine.rs:174-176 | some run takes the transmitter's count since the last grant past 255, and its 8-bit counter over, if and only if the payload has at least 1799 bytes, 1542 with an address byte |
| `IsoTpTransmit.WrapIsHarmless` | rmvci-core/src/isotp/machine.rs:174-178 | whenever a block size is in force the counter equals the true count and is below it |
| `IsoTpRules.ReceivedExactly` | rmvci-core/src/isotp/machine.rs:190-236 | after any run, by the bytes of the next frame: a grant of exactly the two bytes behind 0x30, a WAIT honoured or refused by its 8-bit count, overflow, reserved status, flow control cut short, each if and only if the sender waits; all else changes nothing |
| `IsoTpRules.PolledExactly` | rmvci-core/src/isotp/machine.rs:131-188 | after any run, by its past alone: the next frame is sent if and only if it is due, a timeout comes if and only if N_Bs has run out on a wait, and otherwise nothing happens |
| `IsoTpRules.FrameBytes` | rmvci-core/src/isotp/machine.rs:30-46 | the bytes of frame k: address byte, control information, its part of the payload, then the configured padding to eight bytes or none at all |
| `IsoTpReceive.StateExplained` | rmvci-core/src/isotp/machine.rs:335-390 | after any frames at all the receiver's state is what the frames heard since one first frame say, and the buffer is shorter than FF_DL |
| `IsoTpReceive.DeliversExactlyTransfers` | rmvci-core/src/isotp/machine.rs:335-390 | a payload is delivered if and only if the frames heard end with one complete transfer of it |
| `IsoTpReceive.DeliveredLength` | rmvci-core/src/isotp/machine.rs:335-374 | a multi-frame payload is as long as its first frame announced, between 8 (7 with an address byte) and 4095 bytes |
| `IsoTpReceive.LossNeverCorrupts` | rmvci-core/src/isotp/machine.rs:356-374 | of any in-order subsequence of a transfer's frames only the whole transfer delivers, and then the exact payload |
| `IsoTpReceive.GapDetected` | rmvci-core/src/isotp/machine.rs:356-366 | after any losses at all: SequenceError with both numbers exactly when the frames lost so far are not a multiple of 16 for the first time; once a loss is noticed, or without the first frame, every further frame is refused |
| `IsoTpReceive.DeadlineIsLastHeard` | rmvci-core/src/isotp/machine.rs:335-390 | in every run the deadline of a transfer under way is N_Cr after its last accepted frame |
| `IsoTpReceive.CfTimeoutExact` | rmvci-core/src/isotp/machine.rs:300-307 | N_Cr has run out if and only if the frames heard end in an unfinished transfer whose last frame is more than N_Cr ago |
| `IsoTpReceive.RxCounterWrapsExactly` | rmvci-core/src/isotp/machine.rs:375-389 | the receiver's own 8-bit counter overflows under some peer if and only if it asks for unlimited blocks: accepted frames need not carry data |
| `IsoTpReceive.TransferWrapsExactly` | rmvci-core/src/isotp/machine.rs:375-389 | fed a transfer as segmented, it overflows if and only if blocks are unlimited and the payload has at least 1799 bytes, 1542 with an address byte |
| `IsoTpRules.AnswerExactly` | rmvci-core/src/isotp/machine.rs:309-395 | after any frames, by the bytes of the next one and the frames heard of the transfer under way: a first frame is granted and a single frame delivered at any time, flow control and malformed frames change nothing, a consecutive frame is refused, ends, completes or continues the transfer |
| `IsoTpRules.MalformedByBytes` | rmvci-core/src/isotp/machine.rs:309-395 | which bytes are malformed and why, for each of the reasons |
| `IsoTpRules.OpenIsUnique` | rmvci-core/src/isotp/machine.rs:335-390 | after any frames there is exactly one transfer under way, or none |
| `IsoTpRules.GrantBytes` | rmvci-core/src/isotp/machine.rs:293-297 | the flow control sent is address byte, 0x30, block size, STmin and padding |
| `IsoTpSystem.RunKeeps` | rmvci-core/src/isotp/machine.rs:131-396 | receiver buffer and data in flight make up the payload sent so far, with numbers and block counters in step, in every timely run |
| `IsoTpSystem.EndToEnd` | rmvci-core/src/isotp/machine.rs:131-396 | under any interleaving and any clock that misses no deadline no error occurs and exactly the payload is delivered, once |
| `IsoTpSystem.FlowControlSafe` | rmvci-core/src/isotp/machine.rs:190-195 | at most one grant is in flight, only while the sender waits and no data is; at most max(1, BS) data frames are in flight |
| `IsoTpProgress.WorkShrinks` | rmvci-core/src/isotp/machine.rs:131-396 | every move that is not idle reduces the work left |
| `IsoTpProgress.BoundedWork` | rmvci-core/src/isotp/machine.rs:131-396 | no run acts more than four times per frame |
| `IsoTpProgress.DeadlockFreeExactly` | rmvci-core/src/isotp/machine.rs:171-182 | every reachable state can be driven to completion if and only if N_Bs and N_Cr leave room for the advertised STmin |
| `IsoTpHost.HostSend` | rmvci-core/src/isotp/mod.rs:348-374 | the sending loop ends for every peer wherever it ends at all, however long its writes take and whichever fail; its result, its frames and the moment each was handed over are those of the sender's specification |
| `IsoTpHost.SendsSegments` | rmvci-core/src/isotp/mod.rs:348-374 | the frames handed over are a prefix of the segmentation; the send succeeds exactly when that is all of it and the last write succeeds |
| `IsoTpSendRuns.SendEndsExactly` | rmvci-core/src/isotp/mod.rs:348-374 | the loop ends on every bus, with whatever writes, if and only if WAITs are limited below 255, or one frame is enough, or N_Bs is zero |
| `IsoTpSendRuns.WaitsForever` | rmvci-core/src/isotp/machine.rs:224-231 | otherwise, once the first frame is written within N_Bs, no number of WAITs, at whatever times, ends the wait after it |
| `IsoTpSendRuns.SendObeys` | rmvci-core/src/isotp/mod.rs:348-374 | every send is the transmitter's run of the very calls the loop makes: it receives the frames polled for this endpoint when they were polled and sends the frames handed over when they were; that run obeys the rules of blocks, pacing, N_Bs and WAITs, and an ISO-TP error ends both at the same moment |
| `IsoTpSendRuns.SendErrors` | rmvci-core/src/isotp/mod.rs:348-374 | in that run: FcTimeout only with N_Bs passed since the last frame was handed over or the last WAIT polled, WaitLimit only after exactly the allowed WAITs polled since the last grant, any ISO-TP error only while a grant is due |
| `IsoTpTraffic.SendIgnoresForeign` | rmvci-core/src/isotp/mod.rs:331-374 | for any traffic and timing of polls and writes, frames and result are those of a sender without a clock that sees only the flow control for this endpoint, unless N_Bs runs out; then the frames are a beginning of its frames |
| `IsoTpTraffic.SendUnmoved` | rmvci-core/src/isotp/mod.rs:331-374 | two sends that get the same flow control amid any other traffic at any times, and whose writes succeed alike, send the same frames with the same result |
| `IsoTpTraffic.ForeignAddsNothing` | rmvci-core/src/isotp/mod.rs:331-346 | polls that do not concern a driver leave the replies that do as they are, wherever they are put in |
| `IsoTpHost.HostRecv` | rmvci-core/src/isotp/mod.rs:376-396 | the receiving loop ends, and its result, its flow control and the moment each grant was handed over are those of the receiver's specification, with writes that take time and may fail |
| `IsoTpHost.RecvDelivers` | rmvci-core/src/isotp/mod.rs:376-396 | what is returned is one complete transfer from the peer, ended by the frame just polled, and every such transfer is returned |
| `IsoTpHost.RecvVerdict` | rmvci-core/src/isotp/mod.rs:376-396 | every result of a receive: the frame just polled decides, or the failing write it calls for; else CfTimeout exactly when N_Cr has passed since the last frame of an unfinished transfer; else TimedOut exactly when the caller's time is up |
| `IsoTpTraffic.RecvIgnoresForeign` | rmvci-core/src/isotp/mod.rs:331-346 | for any traffic and timing, result and flow control are those of a receiver without a clock that sees only the frames for it, unless a deadline passes; then the flow control is a beginning of its |
| `IsoTpTraffic.RecvUnmoved` | rmvci-core/src/isotp/mod.rs:331-346 | two receives that get the same frames for them amid any other traffic at any times, and whose writes succeed alike, give the same result and flow control |
| `IsoTpWire.RecvUntouched` | rmvci-core/src/isotp/mod.rs:331-346 | polls without a message, with another identifier, the NOT_DATA bit, at most four bytes or another address byte, put in anywhere, change neither the result of a receive nor its flow control unless a deadline passes, and then only how far it got |
| `IsoTpWire.SendUntouched` | rmvci-core/src/isotp/mod.rs:331-374 | nor what a send sends and its result, unless N_Bs runs out |
| `IsoTpWire.ForeignDecidesNothing` | rmvci-core/src/isotp/mod.rs:376-396 | such a poll is not fed to the receiver; the clock alone decides after it |
| `IsoTpWire.FrameDecides` | rmvci-core/src/isotp/mod.rs:376-396 | a data message with the identifier and the address byte is fed to the receiver when it comes, and what that answers is what happens: error or payload returned, the configured grant written at once |
| `IsoTpWire.GrantsExactly` | rmvci-core/src/isotp/mod.rs:348-374 | in the run of a send there is a grant of two bytes, or an honoured WAIT, exactly where a message for the waiting sender carried it, byte for byte |
| `IsoTpWire.RefusalsExactly` | rmvci-core/src/isotp/mod.rs:348-374 | a waiting send ends in overflow, reserved status, short flow control or WAIT limit if and only if the bytes of the message just polled say so; no frame is sent after that |
| `IsoTpWire.OthersChangeNothing` | rmvci-core/src/isotp/mod.rs:348-374 | every other poll leaves a waiting send as it is, but for the clock and a timeout when N_Bs has run out |
| `IsoTpHost.DrainPending` | rmvci-core/src/isotp/mod.rs:49-61 | the first response that is not pending, or the 31st; an error at once |
| `IsoTpHost.PendingExactly` | rmvci-core/src/isotp/mod.rs:34-36 | a response is pending if and only if it begins with 0x7f, any service and 0x78 |
| `Checksum.OneChangeShows` | rmvci-core/src/codec/frame.rs:14-16 | changing any one byte changes the checksum |
| `Checksum.SumIsParity` | rmvci-core/src/codec/frame.rs:14-16 | every bit of the checksum is the parity of that bit over all bytes |
| `Codec.PlainRoundTrip` | rmvci-core/src/codec/frame.rs:23-65 | every payload that encodes is decoded to itself |
| `Codec.PlainExactly` | rmvci-core/src/codec/frame.rs:51-65 | a frame decodes to a payload if and only if its first two bytes are its length, its last the checksum of all before, and the payload what is between |
| `Codec.PlainLayout` | rmvci-core/src/codec/frame.rs:23-34 | a payload is sent as a frame if and only if that frame decodes to it; too long are exactly those over 0xfffc bytes |
| `Codec.OneByteChangeRejected` | rmvci-core/src/codec/frame.rs:51-65 | a plain frame with any one byte changed, length field included, is rejected |
| `Codec.BlocksExactly` | rmvci-core/src/codec/crypto.rs:9-25 | the image of a buffer is the one in which every whole block is the image of the block in its place, and the rest is kept |
| `Codec.CryptInPlace` | rmvci-core/src/codec/frame.rs:36-49 | every whole block of the buffer from an offset on is replaced by its own image, all else stays |
| `Codec.EncodeEncrypted` | rmvci-core/src/codec/frame.rs:36-49 | the in-place construction of an encrypted frame meets its specification for every inner and key |
| `Codec.DecodeEncrypted` | rmvci-core/src/codec/frame.rs:71-98 | the same for decoding, errors included |
| `Codec.EncryptedLayout` | rmvci-core/src/codec/frame.rs:36-49 | a frame is a true length, the image of every single block of the zero-padded inner, and the checksum of all before it |
| `Codec.DecryptedExactly` | rmvci-core/src/codec/frame.rs:71-98 | an inner is accepted if and only if it is, block by block, what the whole blocks of a frame of true length decrypt to, under one of the two checksums |
| `Codec.EncodesExactly` | rmvci-core/src/codec/frame.rs:36-41 | an inner is encoded if and only if it has at most 0xfff8 bytes |
| `Codec.EncryptedRoundTrip` | rmvci-core/src/codec/frame.rs:36-98 | every non-empty inner that is accepted comes back with zeros up to the block boundary and nothing else |
| `Codec.BothChecksumsAccepted` | rmvci-core/src/codec/frame.rs:67-98 | exactly the ciphertext and the plaintext checksum byte are accepted, with the same result |
| `Inner.CommandUnderstood` | rmvci-core/src/codec/inner.rs:1-9 | an adapter that goes by the count reads every command as it was meant, whatever follows it; filters come cut to their width |
| `Inner.CommandArrives` | rmvci-core/src/codec/inner.rs:18-20 | the count is never truncated in a command that the encoder accepts: it is understood after encryption and padding |
| `Inner.OnlyIdentifyOpens` | rmvci-core/src/codec/inner.rs:25-69 | of all builders only identify yields opcode 0x01, only session_close 0x02 and only read_poll 0x09 |
| `Inner.MeaningOfLayout` | rmvci-core/src/codec/inner.rs:84-123 | each builder's words and bytes determine its command; a filter's width is a third of what follows its words |
| `Inner.RefusedExactly` | rmvci-core/src/codec/inner.rs:71-175 | what the builders refuse, and nothing else: messages over 4100 bytes, periodic ones over 12, filter widths other than 1, 4 and 5 or 1 on CAN, fields shorter than the width |
| `Inner.SessionBytes` | rmvci-core/src/codec/inner.rs:25-69 | the bytes of identify, read_version, connect, disconnect, session_close and read_poll |
| `Inner.MessageBytes` | rmvci-core/src/codec/inner.rs:71-175 | the bytes of write_msg and start_periodic |
| `Inner.FilterBytes` | rmvci-core/src/codec/inner.rs:91-123 | the bytes of a filter: its fields cut to the width, a missing flow field all zero |
| `Inner.StopBytes` | rmvci-core/src/codec/inner.rs:141-187 | the bytes of stop_filter and stop_periodic |
| `Inner.SettingBytes` | rmvci-core/src/codec/inner.rs:132-212 | the bytes of set_config, get_config and set_programming_voltage |
| `Inner.ChannelBytes` | rmvci-core/src/codec/inner.rs:230-284 | the bytes of read_vbatt, clear_rx and clear_periodic |
| `Inner.InitBytes` | rmvci-core/src/codec/inner.rs:254-295 | the bytes of the two K-line initialisations |
| `Inner.ProtoNumbers` | rmvci-core/src/types.rs:45-61 | a number is taken for a protocol if and only if it is its own, 1 to 6, or the vendor alias of the last |
| `Inner.LowByteFirst` | rmvci-core/src/codec/inner.rs:14-20 | counts and words stand low byte first |
| `Inner.ChallengeExactly` | rmvci-core/src/codec/inner.rs:297-307 | a key is read if and only if the payload is 9, two bytes, the eight bytes of that key and anything more |
| `Inner.StatusExactly` | rmvci-core/src/codec/inner.rs:309-324 | a reply has a status for a command if and only if it begins with 2, 0, the command and the status |
| `Inner.ReadReplyExact` | rmvci-core/src/codec/inner.rs:336-354 | a message is parsed from a reply if and only if the reply starts with the layout of that message and status |
| `Inner.NoMessageExactly` | rmvci-core/src/codec/inner.rs:336-350 | a reply is one without a message, with a given status, if and only if its count is at most 9 and its status bytes, four or the one there is, say so |
| `Inner.ReadReplyRefused` | rmvci-core/src/codec/inner.rs:336-354 | a reply is refused if and only if it answers another command or announces more than it has |
| `Inner.MessageArrives` | rmvci-core/src/codec/inner.rs:326-354 | a message reply is read whole after decryption under either checksum, its padding never part of it |
| `Inner.WriteMsgFrameSize` | rmvci-core/src/types.rs:10-17 | written messages are accepted up to MAX_MSG, their frames never exceed MAX_FRAME, and those within 6 bytes of MAX_MSG reach it |
| `Inner.LongestReply` | rmvci-core/src/types.rs:13-17 | a reply fits MAX_FRAME exactly up to one byte more than MAX_MSG |
| `Framing.Deframer.Push` | rmvci-core/src/codec/deframe.rs:21-23 | bytes popped and pending together are the bytes pushed |
| `Framing.Deframer.NextFrame` | rmvci-core/src/codec/deframe.rs:35-55 | the frames popped are the first frames of everything pushed, in order; none and errors come exactly where the cutting of the whole stream ends, and leave the buffer alone |
| `Framing.Deframer.Clear` | rmvci-core/src/codec/deframe.rs:30-33 | after it the deframer is as new |
| `Framing.Source.ReadExact` | rmvci-core/src/session/wire.rs:36-49 | over any pattern of short reads the buffer is filled in place with the next bytes, or the wait elapsed before they came |
| `Framing.Source.ReadFrame` | rmvci-core/src/session/wire.rs:17-34 | the next frame of the stream, or the bad length having consumed just the header, or a timeout that with a prompt sender means that the frame is not all there |
| `Framing.CutExactly` | rmvci-core/src/codec/deframe.rs:35-55 | a frame is cut if and only if its first two bytes are its length, from 3 to 4115, and it is all there; other lengths are bad |
| `Framing.CutAllIsExact` | rmvci-core/src/codec/deframe.rs:35-55 | cutting loses no byte, cuts only proper frames and stops only for want of bytes or at a bad length |
| `Framing.CutAllMonotone` | rmvci-core/src/codec/deframe.rs:21-55 | frames already cut stand whatever arrives later, and a bad length is final |
| `Framing.FramingsAgree` | rmvci-core/src/session/wire.rs:17-34 | over one stream, however pushed and however read, deframer and reader cut the same frames and stop at the same error |
| `Stack.MessageDown` | rmvci-core/src/codec/inner.rs:71-82 | every message up to MAX_MSG survives building, encryption, cutting out of a stream and decryption with only zeros added |
| `Stack.MessageUp` | rmvci-core/src/codec/inner.rs:336-354 | every message reply that fits is cut, decrypted and parsed to its exact message under both checksum conventions |
| `Link.UnderKey` | rmvci-core/src/session/link.rs:3-8 | under the adapter's own key no command but OPEN and the session close ends the keyed state, and none is mistaken for a handshake frame |
| `Link.ChallengeRead` | rmvci-core/src/session/link.rs:34-38 | a key is read from every plain frame of 09 00 01, the key and anything more, and it is that key; from no frame that is not a plain one of count 9 with room for a key |
| `Link.CapturedFrames` | rmvci-core/tests/captured_vectors.rs:20-31 | the two handshake frames are the captured ones up to their checksums |
| `Link.LostHandshake` | rmvci-core/src/session/link.rs:26-41 | the states a handshake may leave the adapter in: after the reset as it was or in plaintext, after both frames in plaintext, the identify lost, or with any key, the challenge lost |
| `Link.AgreementExactly` | rmvci-core/src/session/link.rs:26-41 | host and adapter are sure to agree on the key after a failed handshake if and only if it wrote nothing |
| `Link.Establish` | rmvci-core/src/session/link.rs:26-41 | success means reset and identify written in this order and the read answered by a challenge, 09 00 01 and the key, which is the one returned and the adapter's; every such answer succeeds; it times out exactly if the read did; failure means a prefix of the two frames and the adapter in one of the states that prefix allows |
| `Session.TrailingMeans` | rmvci-core/src/session/actor.rs:133-137 | the trailing count is at least k if and only if the last k exchanges got no reply |
| `Session.VerdictStep` | rmvci-core/src/session/actor.rs:195-229 | three silent exchanges in a row occur somewhere if and only if the running count reached three at some exchange |
| `Session.CountFallsBehind` | rmvci-core/src/session/actor.rs:242-255 | an unwedged adapter ends up wedged with fewer than three silent exchanges counted exactly by a connect after two silent exchanges whose first attempt is silent and whose retry is not |
| `Session.WedgedAtZero` | rmvci-core/src/session/actor.rs:195-204 | such a connect, with its own frames: two idle polls and the first attempt unanswered, the retry acknowledged, and the count at zero |
| `Session.CommandsAreOrdinary` | rmvci-core/src/codec/inner.rs:25-69 | the builders whose inners the actor takes from callers are all but identify, session_close and read_poll |
| `Session.AcknowledgedExactly` | rmvci-core/src/session/actor.rs:231-240 | a command is acknowledged if and only if the reply begins with 2, 0, its opcode and status 0; any other status there is the rejection |
| `Session.BroughtExactly` | rmvci-core/src/session/actor.rs:271-277 | an exchange brings a message if and only if it was a poll of that protocol answered with that message laid out as the adapter does |
| `Session.ActorsCommands` | rmvci-core/src/codec/inner.rs:37-69 | the bytes of the commands that the actor makes itself |
| `Session.Actor.NoteSilence` | rmvci-core/src/session/actor.rs:219-229 | the count saturates, the verdict is raised from three on and never withdrawn |
| `Session.Actor.TransactInner` | rmvci-core/src/session/actor.rs:206-217 | at most the one encrypted frame is written, and at most one read made, with nothing else sent since a purge; the result is what that read decrypts to, and a timeout if and only if that read timed out; the adapter stays keyed |
| `Session.Actor.Transact` | rmvci-core/src/session/actor.rs:195-204 | count and verdict are those of the history with this exchange, which records what its read brought: exactly the exchanges whose read timed out count, all else breaks the streak |
| `Session.Actor.WedgedExactly` | rmvci-core/src/session/actor.rs:195-229 | the adapter is wedged if and only if the reads that three exchanges in a row made on the port timed out |
| `Session.Actor.TransactStatus` | rmvci-core/src/session/actor.rs:231-240 | success exactly when the reply acknowledges the opcode with status 0 |
| `Session.Actor.ConnectTo` | rmvci-core/src/session/actor.rs:242-255 | a second attempt exactly when the first was not acknowledged and the new handshake succeeded; the last attempt decides, the channel list gains the protocol in order, a failed handshake keeps the old key and, from an agreed state, the agreement exactly if it wrote nothing |
| `Session.PersistedMeans` | rmvci-core/src/session/actor.rs:242-249 | any course of first attempt, handshake and second attempt has those exchanges, those writes and that effect on the key |
| `Session.Actor.Rehandshake` | rmvci-core/src/session/actor.rs:247-247 | the key is replaced exactly when the handshake succeeded, which then agrees with the adapter; every OPEN follows a reset; after a failure the adapter is in one of the states that what was written allows |
| `Session.Actor.DisconnectFrom` | rmvci-core/src/session/actor.rs:257-265 | one exchange decides the result, and the channel leaves the list either way |
| `Session.Actor.PollFor` | rmvci-core/src/session/actor.rs:267-278 | a queued message is given without any exchange, else one exchange is made; what is given keeps the balance of messages |
| `Session.Actor.IdlePoll` | rmvci-core/src/session/actor.rs:286-306 | one poll of the lowest connected protocol whose message is kept; nothing at all when wedged, and a verdict it raises has a count of three or more |
| `Session.Actor.Drain` | rmvci-core/src/session/actor.rs:291-305 | the message an idle poll brings joins the queue of its protocol, so that given and queued still make up all returned |
| `Session.Actor.Handle` | rmvci-core/src/session/actor.rs:164-193 | a request is refused if and only if the adapter is wedged, and then nothing is written, read or changed; otherwise the answer is that of its exchanges, and the verdict outruns the count exactly on a connect retried after silence |
| `Session.Actor.Teardown` | rmvci-core/src/session/actor.rs:308-329 | every connected channel is disconnected in order and the session closed last, whatever each step comes to |
| `Session.Actor.Run` | rmvci-core/src/session/actor.rs:142-162 | over any sequence of requests and idle times each request is answered once and in order, no message is lost, doubled or reordered, after the first refusal there are only refusals, and refusals come only after three silent exchanges in a row |
| `Session.TakeQueued` | rmvci-core/src/session/actor.rs:267-270 | giving the oldest queued message keeps delivered ++ queued == returned for every protocol |
| `Session.TakeFetched` | rmvci-core/src/session/actor.rs:271-277 | so does giving what a poll brought when nothing is queued |
| `Session.Store` | rmvci-core/src/session/actor.rs:293-303 | so does queueing what an idle poll brought |
| `Session.Insert` | rmvci-core/src/session/actor.rs:250-253 | the list stays strictly ascending and gains exactly the protocol |
| `Channel.RawChannel.StartFilter` | rmvci-core/src/session/raw.rs:40-53 | a filter counts exactly when the adapter took it, and a malformed one is never sent |
| `Channel.RawChannel.StopFilter` | rmvci-core/src/session/raw.rs:55-63 | one filter less exactly on acknowledgement, never below none |
| `Channel.RawChannel.Write` | rmvci-core/src/session/raw.rs:65-95 | messages out of bounds are refused with nothing sent, all others make one exchange that decides |
| `Channel.GuardedWritesBuild` | rmvci-core/src/session/raw.rs:74-94 | what passes the guards always passes the builder |
| `Channel.GuardsExactly` | rmvci-core/src/session/raw.rs:65-93 | the lengths each protocol admits, with at most 255 bytes behind the identifier on ISO15765, and which error the others get |
| `Channel.IsoTpFramesPass` | rmvci-core/src/session/raw.rs:74-83 | every frame of every ISO-TP segmentation passes the guards of raw CAN behind its identifier |
| `Channel.RawChannel.Read` | rmvci-core/src/session/raw.rs:102-126 | the first data message with indications skipped, or the failing poll, or silence for the whole time, told apart by whether a filter is installed |
| `KLine.HeaderRoundTrip` | rmvci-core/src/kline.rs:166-200 | unwrapping inverts wrapping for exactly the payloads of 1 to 255 bytes |
| `KLine.StripAfterBuild` | rmvci-core/src/kline.rs:185-200 | bytes behind a wrapped payload are ignored; longer payloads are cut to their length modulo 256 |
| `KLine.HeaderLayout` | rmvci-core/src/kline.rs:166-183 | format byte, ECU before tester, the length in the low six bits of the format byte or behind the addresses |
| `KLine.StripExactly` | rmvci-core/src/kline.rs:185-200 | what is read out of a reply, if and only if it has four bytes: as many bytes behind the header as its length says or there are |
| `KLine.SendableRequests` | rmvci-core/src/kline.rs:169-183 | the channel takes a wrapped request if and only if it has at most 61 bytes |
| `KLine.KLineEcu.FlushRing` | rmvci-core/src/kline.rs:220-229 | at most 64 frames, stopping at the first poll that brings none |
| `KLine.KLineEcu.Reinit` | rmvci-core/src/kline.rs:238-244 | the ring flushed and then exactly one wake-up, whatever it comes to |
| `KLine.KLineEcu.WakeUpBytes` | rmvci-core/src/kline.rs:144-149 | the wake-up is a fast init with 81, ECU, tester, 81; the clearing before a request its four-byte ioctl |
| `KLine.KLineEcu.Await` | rmvci-core/src/kline.rs:265-305 | on any advancing clock the reads end; what they say, from the moment the first began, decides the result and whether the ECU is re-initialised, once, as `Decided` lays down |
| `KLine.KLineEcu.Request` | rmvci-core/src/kline.rs:253-306 | clear, write, reads and at most one re-initialisation in this order; a failure of clear or write is the result and nothing is read |
| `KLine.DecisionMeans` | rmvci-core/src/kline.rs:273-304 | a timeout is reported only when nothing pending was seen; a proper reply never costs a re-initialisation, a pending one always does; the last read begins within 20 s of the first |
| `KLine.DecisionIsUnique` | rmvci-core/src/kline.rs:265-305 | the rule stops at one read and leaves one result |
| `NetProxy.WireRoundTrip` | rmvci-net/src/wire.rs:43-67 | a frame comes off the stream as it was put on if and only if it is within the limit |
| `NetProxy.ReadNetFrame` | rmvci-net/src/wire.rs:52-67 | the next frame over any splitting of the stream, or that its length is out of bounds, or that the stream ended first |
| `NetProxy.LatencyRoundTrip` | rmvci-net/src/wire.rs:77-103 | every latency result survives encoding and decoding |
| `NetProxy.RequestDecodes` | rmvci-net/src/server.rs:75-122 | the bridge reads every request as the primitive it stands for, a read capped to its limits |
| `NetProxy.ResponseTells` | rmvci-net/src/client.rs:98-155 | the caller is told exactly what the primitive came to: every byte read, success for success, error for error |
| `NetProxy.Dispatch` | rmvci-net/src/server.rs:75-122 | at most one primitive is executed for a request and its outcome is the response |
| `NetProxy.ServeRequests` | rmvci-net/src/server.rs:64-72 | over any splitting of the stream the calls and the bytes are those of the specification, a beginning of them if reading fails or ends early, and the end of the stream is told from a bad length |
| `NetProxy.ServeConnection` | rmvci-net/src/server.rs:43-73 | nothing is executed unless the hello is exact; then the connection is served as the request loop serves it |
| `NetProxy.ProxyIsTransparent` | rmvci-net/src/server.rs:64-122 | for every sequence of primitives within the frame limit: the same calls in the same order, and every caller told what the cable itself would have said |
| `NetProxy.CarriedWhole` | rmvci-net/src/server.rs:84-92 | no primitive is changed on the way but reads of more than 64 KB and waits beyond 64 bits of microseconds |
| `NetProxy.TcpTransport.Transact` | rmvci-net/src/client.rs:88-95 | exactly the request's frame is sent and exactly one frame of the stream is consumed as its response; a response that is missed is counted and left for the next caller |
| `NetProxy.OwnOutcomeExactly` | rmvci-net/src/client.rs:88-95 | on a stream that answers in order the last caller was told its own outcome if and only if no response was missed before on the connection; otherwise that of a request as many calls ago as were missed |
| `NetProxy.TcpTransport.Command` | rmvci-net/src/client.rs:109-141 | success or failure as the response tells, and failure when there is none |
| `NetProxy.TcpTransport.ReadInto` | rmvci-net/src/client.rs:117-130 | the bytes told land at the front of the caller's buffer and the rest of it is untouched |
| `NetProxy.TcpTransport.OptimizeLatencyTimer` | rmvci-net/src/client.rs:143-154 | the latency result told, or a failed one when the bridge is lost |

## Left out

- DES: any lawful keyed permutation of 8-byte blocks takes its place (`Codec.Cipher`).
- Serial, USB and JNI transports, modem lines, reset timing, latency-timer tuning, sockets, threads and channels: arbitrary byte sources and sinks and one sequence of requests take their place.
- The J2534 exports, the JNI entry points, the KWP2000, UDS and Toyota clients, the command-line programs: not modelled.
- Logging and the wording of errors; text is a byte string, so lossy UTF-8 conversion is the identity here. The bridge's complaint about an unknown tag does not name the tag.
- The firmware's own ISO-TP path (`IsoTpPath::Firmware`) and the reply layouts of GET_CONFIG and READ_VBATT, which the source marks as unverified.
- Panics of debug builds on counter overflow: `IsoTpTransmit.CounterWrapsExactly` says where release builds wrap instead.
- HostSend: requires that the loop can end (`IsoTpHost.Patient`); outside that condition a peer exists for which it does not, so there is no result to state.
- ServeRequests: on a stream on which reading fails, what is promised is a beginning of the service; a response that cannot be written is not modelled.
- The bus in `IsoTpHost`: every poll takes at least one tick, writes take any time and may fail, sleeps end on time. Frames are stamped when they are handed over, which is when the machine's clock is read; a write that fails may or may not have put its frame on the bus.
- The adapter in `Link`: it changes state only by the frames it gets. Power loss is not modelled, and what looks like a challenge (a plain frame of count 9 with room for a key) after a purge and a lone OPEN is taken to be the adapter's own.
- After a handshake that wrote something and failed nothing is said of what the adapter makes of later frames under the old key, until the next handshake succeeds.
- Requests with arbitrary inner bytes: `Session.Request.Fair` excludes those with the opcodes of the session itself (OPEN, session close, READ_MSG), which no caller in the crate sends.
- The deadlines inside `read_frame` and `read_exact`: a wait that elapses is an empty read at any point (`Framing.Source.Read`).
- `last_wire` and the keepalive interval: idle polls may come at any time.
- `open`'s reset sequence before the handshake, and `RawChannel`'s disconnect on drop.
- The builders' vectors are built as one layout value per command (`Inner.LayoutOf`) instead of by appending.
- Connection set-up of `TcpTransport`, its socket timeouts and Nagle's algorithm: a response that does not come in time is a missed one. After one that was missed halfway through its frame nothing is said of later responses.
