# Decentis: verified model of the transfer, session, rendezvous and discovery logic

A Dafny 4.11 model of the parts of Decentis that carry state and arithmetic, with proofs of what
they guarantee. `dafny verify dfyconfig.toml` checks everything.

| files | what they model |
|---|---|
| `Buffers.dfy`, `Frame.dfy`, `Postcard.dfy`, `Manifest.dfy` | the byte buffers, the 10-byte frame header, the metadata encoding, the chunk arithmetic |
| `Storage.dfy`, `Chunker.dfy`, `Writer.dfy` | a file with its seek position, reading a source chunk by chunk, writing received chunks and their bitset |
| `Wire.dfy`, `Stream.dfy`, `Transfer.dfy` | the file stream: the frames, the sender and the receive loop, the end-to-end results |
| `Bits.dfy`, `Replay.dfy`, `Session.dfy`, `Datagram.dfy` | the 128-bit replay window, the session halves, the datagram bridge over an arbitrary network |
| `Signaling.dfy`, `Server.dfy`, `SignalingSafety.dfy`, `SignalingHistory.dfy`, `SignalingRuns.dfy` | the rendezvous server as interleaved steps, its code, and what holds in every run |
| `Stun.dfy` | the STUN attribute walker |
| `Bytes.dfy`, `Wrappers.dfy` | bounded integers, byte order, options and results |

## How it is built

- Code that updates state is a class or a method with a loop, proved against functions on values;
  the main results are lemmas about those functions over all inputs and all runs.
- Integers are mathematical and bounded by their type. The u32 wrap of the sender's number, the
  cast of a payload length to 32 bits, the saturating float cast and the truncating shift are
  written out. A `u128` is its value; bits, shift and bitwise operators are defined on the value.
- A file has contents and a position. Disk and stream operations succeed, except for the end of
  the file or stream. A file or stream is an arbitrary finite sequence of bytes.
- The client that watches a transfer takes some number of progress updates and is then gone.
- The authenticated cipher is ideal: a nonce and ciphertext open exactly if they were sealed. Each
  direction of a session has its own cipher and its own record of what was sealed.
- The serialiser of the metadata is a library and not part of the repository. `Postcard.dfy` is
  a concrete wire format for the two metadata records, including the rejection of varints that
  do not fit their type and of invalid UTF-8, and its round trip is proved. Bytes after a decoded record are ignored.
- A server step is one lock region or one channel operation. Sessions and calls are numbered in
  order of creation. `taken`, `delivered`, `snapshot` and `log` are history that the code has no
  variable for; `SignalingRuns.LookupOf` ties each call and its `snapshot` to a state of the run.

## Where the code and what is said of it differ

- `daemon/src/transport/stream.rs:176` logs a file as verified; only the bitset is looked at. The
  hash in the manifest is never compared, and nothing is claimed about it.
- Above (2^32 - 1) * 65536 bytes the chunk count saturates. The transfer then still ends with every
  bit set and a completion report, but the tail is zeros: `Manifest.CoversIff` and
  `Writer.CompleteMeansSource` give the exact condition, `Transfer.EndToEnd` what the receiver has. The COMPLETED update
  then does not report the whole size: `Transfer.ProgressIsFaithful` gives the condition.
- A session need not be registered while its loop runs. `SignalingRuns.LoopsUnregistered` is a run
  in which it is not; `SignalingRuns.RegisteredIff` says exactly when it is.
- A call can send to a closed channel, which crashes the server. `SignalingRuns.SendsToClosed` is
  such a run; `SignalingRuns.CrashIff` says exactly when a step does it.
- The STUN walker indexes past the end of a message with a truncated mapped address.
  `Stun.LeavesTheMessage` is such a message; `Stun.WalkOutcome` says exactly for which bytes.
- The replay window marks a number before the message is opened, so a frame that does not open
  uses its number up. `Datagram.ForgedFrameUsesUpANumber` is a run in which a genuine packet is lost
  that way; `Datagram.GenuineArrivalDelivers` gives the exact condition for delivery after any run,
  `Datagram.NoLossIffOrderlyArrivals` the condition for runs in which only genuine packets arrive.

## Model

| member | source | states |
|---|---|---|
| Frame.EncodeHeader | daemon/src/transport/frame.rs:31-38 | appends exactly the ten bytes of the header to whatever the buffer held |
| Frame.DecodeHeader | daemon/src/transport/frame.rs:41-70 | decodes what the cursor has left and moves it by ten bytes, or by as many as were read when the size, magic byte or version is wrong |
| Frame.DecodeEncoded | daemon/src/transport/frame.rs:31-70 | an encoded header followed by anything decodes to itself |
| Frame.EncodeDecoded | daemon/src/transport/frame.rs:31-70 | ten bytes that decode are the encoding of what they decode to |
| Frame.DecodesToIff | daemon/src/transport/frame.rs:41-70 | a buffer decodes to a header if and only if it starts with that header's encoding |
| Frame.Layout | daemon/src/transport/frame.rs:8-38 | the ten bytes of a header, byte by byte, words most significant byte first |
| Frame.RefusedBecause | daemon/src/transport/frame.rs:41-60 | accepted are exactly buffers of ten bytes or more with bytes 0x49 and 0x01 in front; each error names the first check that fails |
| Postcard.VarintRoundTrip | daemon/src/file_relay/manifest.rs:36-42 | an integer within its type's limit survives encoding and decoding, and the bytes after it are left |
| Postcard.TakeVarint | daemon/src/file_relay/manifest.rs:40-42 | a decoded integer is within its type's limit and at least one byte is consumed, for all bytes |
| Postcard.IsUtf8Iff | daemon/src/file_relay/manifest.rs:40-42 | the strings a decoder accepts are exactly the UTF-8 encodings of sequences of Unicode scalar values (sections 3 and 4 of RFC 3629) |
| Manifest.ManifestRoundTrip | daemon/src/file_relay/manifest.rs:36-42 | every manifest survives encoding and decoding, whatever follows it |
| Manifest.ChunkPayloadRoundTrip | daemon/src/file_relay/manifest.rs:55-61 | every chunk header survives encoding and decoding, and takes at most ten bytes |
| Manifest.EncodedExamples | daemon/src/file_relay/manifest.rs:36-61 | a manifest and a chunk header byte by byte |
| Manifest.TotalChunksIsCeiling | daemon/src/file_relay/manifest.rs:24 | for every 64-bit size the floating-point count k satisfies 65536 * (k - 1) < size <= 65536 * k, or is 2^32 - 1 when the size is above (2^32 - 1) * 65536 |
| Manifest.ChunkLength | daemon/src/file_relay/chunker.rs:63-70 | every chunk is non-empty, at most 64 KB, and inside the file, for every file size |
| Manifest.ChunksArePrefix | daemon/src/file_relay/chunker.rs:60-73 | the first k chunks, concatenated, are a prefix of the file: contiguous, disjoint, in order |
| Manifest.ChunkRange | daemon/src/file_relay/chunker.rs:60-73 | within the size bound chunk i is the file from i * 65536 to the next multiple or the end |
| Manifest.CoversIff | daemon/src/file_relay/manifest.rs:24 | the chunks cover the file if and only if it has at most (2^32 - 1) * 65536 bytes |
| Manifest.OneByteAboveTheBound | daemon/src/file_relay/manifest.rs:24 | one byte above the bound the count stays the same and 65536 bytes are in no chunk |
| Chunker.FileChunker.constructor | daemon/src/file_relay/chunker.rs:15-47 | the manifest has the transfer ID, the file name, the hash and the size it was made from, chunk size 65536 and the chunk count |
| Chunker.FileChunker.ReadChunk | daemon/src/file_relay/chunker.rs:55-81 | an index below the count yields exactly that chunk, in any order of calls; any other is refused; only a shrunken file makes a read fail |
| Writer.DiskWriter.constructor | daemon/src/file_relay/writer.rs:16-45 | a new file of the announced size, all zeros, and a bitset of the announced length, all clear |
| Writer.DiskWriter.WriteChunk | daemon/src/file_relay/writer.rs:48-67 | refuses exactly the indices out of range, changes nothing for a chunk already there, otherwise writes at the chunk's offset and sets its bit |
| Writer.DiskWriter.IsComplete | daemon/src/file_relay/writer.rs:70-72 | true if and only if every bit is set |
| Writer.BitsRecordIndices | daemon/src/file_relay/writer.rs:48-67 | after any chunks at all, a bit is set exactly if it was or its index occurred |
| Writer.OrderIndependent | daemon/src/file_relay/writer.rs:48-72 | after chunks of the source in any order, with repeats and stray indices, the disk has its length, shows the source on what arrived and zeros elsewhere; complete means every index occurred |
| Writer.FirstWriteWins | daemon/src/file_relay/writer.rs:49-56 | after any chunks at all, one whose index has occurred or is out of range changes nothing, whatever its bytes |
| Writer.CompleteMeansSource | daemon/src/file_relay/writer.rs:70-72 | a complete writer holds the source, whatever the order, within the size bound; above it exactly if the uncovered tail is zeros |
| Wire.Iterate | daemon/src/transport/stream.rs:122-184 | every iteration that does not leave the loop takes at least 14 bytes off the stream, for all bytes |
| Wire.IterateFrame | daemon/src/transport/stream.rs:122-184 | one iteration takes exactly one well-formed frame and has that frame's effect |
| Wire.RunFrames | daemon/src/transport/stream.rs:122-184 | reading whole frames is applying their effects in order, whatever follows |
| Wire.CutFrame | daemon/src/transport/stream.rs:122-184 | a frame cut anywhere short of its end has no effect |
| Wire.RunCut | daemon/src/transport/stream.rs:122-184 | a stream of frames cut anywhere leaves the effects of the frames that arrived whole |
| Wire.ForeignFramesAreTransparent | daemon/src/transport/stream.rs:137-182 | frames of other types can be inserted between frames without changing the receiver's final state, and everything is read |
| Wire.FrameLayout | daemon/src/transport/stream.rs:36-73 | manifest and chunk frames byte by byte up to the metadata |
| Wire.UselessFrames | daemon/src/transport/stream.rs:150-179 | a manifest or chunk header that does not decode and a chunk before any manifest are skipped, and the bytes behind them are read as the next frame |
| Wire.ReportsAgain | daemon/src/transport/stream.rs:168-177 | once all chunks are there, another chunk frame changes nothing on disk and reports completion again |
| Wire.BadHeaderEnds | daemon/src/transport/stream.rs:128-134 | another magic byte or version ends the loop and leaves the rest unread |
| Wire.AnyStream | daemon/src/transport/stream.rs:122-184 | on any bytes, disk and bitset are what the chunks written since the latest manifest make of a new writer, and a bit is set exactly if one of them has its index |
| Stream.SendManifest | daemon/src/transport/stream.rs:36-50 | writes exactly the manifest frame |
| Stream.SendChunk | daemon/src/transport/stream.rs:56-75 | extends the stream by exactly the next chunk's frame and counts its bytes |
| Stream.Report | daemon/src/transport/stream.rs:78-101 | an update goes out with chunks 0, 50, 100, ... and the last, and a refused one ends the transfer |
| Stream.SendChunks | daemon/src/transport/stream.rs:52-102 | the loop: as many whole chunk frames, in order, as the client keeps listening for, and exactly the updates due |
| Stream.SendFile | daemon/src/transport/stream.rs:16-106 | writes the manifest and the first min(50 * capacity + 1, total) chunks in order, never fails on an unchanged file, and sends exactly the updates due |
| Stream.ReadFrame | daemon/src/transport/stream.rs:123-146 | reads a header, a length and a payload, and breaks off exactly where the loop does |
| Stream.ProcessFrame | daemon/src/transport/stream.rs:149-183 | acts on a frame as the specification of one iteration says, on the writer and on the stream |
| Stream.ReceiveFile | daemon/src/transport/stream.rs:119-184 | terminates on every finite stream, with the writer, bitset, disk and reports of the specified run |
| Transfer.EffectsOfSender | daemon/src/transport/stream.rs:36-104 | whatever the receiver has read before, the sender's first frames leave it with a new writer that holds the first k chunks, with a report exactly when they are all |
| Transfer.WholeFrames | daemon/src/transport/stream.rs:98-100 | when the sender stops after k chunks the receiver, whatever it has read before, has read everything, has the sender's manifest and holds exactly those |
| Transfer.EndToEnd | daemon/src/transport/stream.rs:36-184 | the receive loop on any frames it can follow and then what was sent for a whole file: the new manifest, all bits set, nothing left over, one more report, and the source byte for byte within the size bound |
| Transfer.SendSource | daemon/src/transport/stream.rs:16-106 | the sending code, run on a file read from the source, writes as many of the sender's frames as the client listens for, and every update carries this transfer's ID, the file's size and the bytes sent so far |
| Transfer.SendAndReceive | daemon/src/transport/stream.rs:16-184 | the sending code followed by the receiving code: the receiver's manifest is field by field what the sender was given; its file shows exactly the chunks sent, and is the source byte for byte within the size bound when the client takes all updates or all but the last; one report exactly if all chunks were sent; every update is of this transfer |
| Transfer.PrefixSafety | daemon/src/transport/stream.rs:122-184 | the stream cut anywhere after the manifest: right length, the source on exactly the chunks that arrived whole, zeros elsewhere, completion only with the last |
| Transfer.ForeignFramesInTransfer | daemon/src/transport/stream.rs:137-182 | any frames of other types among a sender's frames leave the transfer's outcome unchanged |
| Transfer.ProgressIsFaithful | daemon/src/transport/stream.rs:75-96 | for every file size counts strictly increase and exactly the last update is COMPLETED; the u-th reports min((i + 1) * 65536, size) within the size bound, and COMPLETED reports the whole file if and only if the size is within it |
| Transfer.CompleteSendIff | daemon/src/transport/stream.rs:78-100 | all chunks go out if and only if the client takes all updates or all but the last |
| Transfer.UpdateSchedule | daemon/src/transport/stream.rs:78-100 | updates go out exactly with the chunks whose index is a multiple of 50 and the last one, once each and in order; the first one refused ends the transfer after its chunk |
| Replay.ShiftInBit | daemon/src/crypto/replay.rs:37 | shifting left and setting bit 0 moves every bit by the difference and drops those past the top |
| Replay.SetBitBit | daemon/src/crypto/replay.rs:58 | or-ing in the mask sets exactly the bit of the number |
| Replay.MaskTests | daemon/src/crypto/replay.rs:51-52 | masking is non-zero if and only if the bit of the number is set |
| Replay.ShiftedIn | daemon/src/crypto/replay.rs:36-39 | a number less than 128 above the highest: the shifted bitmap represents the accepted numbers with the new one |
| Replay.Wiped | daemon/src/crypto/replay.rs:32-34 | a number 128 or more above the highest: the wiped bitmap represents the accepted numbers with the new one |
| Replay.InWindow | daemon/src/crypto/replay.rs:50-58 | inside the window the masked bit says whether the number was accepted before, and setting it represents the accepted numbers with that one |
| Replay.ReplayFilter.constructor | daemon/src/crypto/replay.rs:11-17 | a new filter represents the empty set |
| Replay.BitmapIsAWord | daemon/src/crypto/replay.rs:4-8 | the bitmaps are exactly the 128-bit words |
| Replay.AdmitsIff | daemon/src/crypto/replay.rs:21-61 | after any calls the simple filter admits exactly the new numbers with no earlier one 128 or more above |
| Replay.ReplayFilter.CheckAndMark | daemon/src/crypto/replay.rs:21-61 | in every run answers true exactly if the number is new and no earlier number, accepted or not, is 128 or more above it; keeps the bitmap representing the set of accepted numbers |
| Replay.NoLossIffOrderly | daemon/src/crypto/replay.rs:29-59 | a run is accepted in full if and only if its numbers are distinct and none comes after one that is 128 or more larger |
| Replay.AtMostOnce | daemon/src/crypto/replay.rs:50-55 | no number is accepted that came before, nor one 128 or more below one that came before |
| Session.Open | daemon/src/crypto/session.rs:50-53 | the ideal cipher opens a nonce and ciphertext if and only if they were sealed |
| Session.OpensTo | daemon/src/crypto/session.rs:24-53 | what was sealed opens to the very message that was sealed |
| Session.SessionTx.Encrypt | daemon/src/crypto/session.rs:15-30 | uses the current number as nonce and advances it modulo 2^32, also when encryption fails |
| Session.SessionRx.Decrypt | daemon/src/crypto/session.rs:39-56 | drops what the window does not admit, marks the number before opening, and yields a plaintext exactly if it was sealed |
| Session.SplitSession | daemon/src/crypto/session.rs:60-73 | both halves share one transport, numbers start at zero, nothing is accepted yet |
| Datagram.ParsePacket | daemon/src/transport/datagram.rs:36-84 | the receiver recovers exactly the number and ciphertext that were framed |
| Datagram.PacketLayout | daemon/src/transport/datagram.rs:36-47 | the packet byte by byte: 0x49, 0x01, 0x04, three zeros, the number, the ciphertext |
| Datagram.ParsesIff | daemon/src/transport/datagram.rs:70-84 | exactly the datagrams of ten bytes or more that begin with 0x49, 0x01, 0x04 are looked at; number and ciphertext are bytes 6 to 9 and the rest |
| Datagram.SealAndFrame | daemon/src/transport/datagram.rs:27-55 | one round of the sending loop: the packet carries the number used and the ciphertext under it |
| Datagram.ParseAndOpen | daemon/src/transport/datagram.rs:70-108 | one round of the receiving loop: ignores malformed and other frames, otherwise delivers as the session decides |
| Datagram.NonceFreshness | daemon/src/crypto/session.rs:20-21 | in every run the i-th encrypt call uses i modulo 2^32, so any 2^32 consecutive calls use different numbers |
| Datagram.DeliveredWasSent | daemon/src/transport/datagram.rs:70-98 | over any network, every delivery of every run is of a message the sender encrypted, with its plaintext |
| Datagram.AtMostOnceDelivery | daemon/src/transport/datagram.rs:70-98 | over any network, no two deliveries are of one message, nor of two messages with the same number, even after the numbers wrap |
| Datagram.ForgeriesAreNotDelivered | daemon/src/transport/datagram.rs:73-96 | a datagram delivers a message only if it carries that message's number and ciphertext |
| Datagram.PacketIdentifiesMessage | daemon/src/transport/datagram.rs:36-47 | with a decryptable cipher, two messages with the same packet are the same message |
| Datagram.GenuineReceive | daemon/src/crypto/session.rs:45-53 | a genuine packet delivers its message if and only if the window admits its number, in any state |
| Datagram.WindowOfAllArrivals | daemon/src/crypto/session.rs:45-48 | in every run the window is that of the numbers of all datagrams that parse, genuine or forged |
| Datagram.GenuineArrivalDelivers | daemon/src/crypto/session.rs:45-55 | after any run a genuine packet is delivered if and only if its number has not arrived before, in a genuine or forged frame, and none 128 or more above it has |
| Datagram.ForgedFrameUsesUpANumber | daemon/src/crypto/session.rs:45-53 | a run in which a forged frame keeps a genuine packet from being delivered, and the same run without it |
| Datagram.NoLossIffOrderlyArrivals | daemon/src/crypto/session.rs:45-55 | when only genuine packets arrive, all are delivered in order of arrival if and only if the arrivals are orderly |
| Server.SignalingServer.Register | server/main.go:36-55 | registers a new session under its ID, or rejects a first message that is no registration |
| Server.SignalingServer.ReceiveEvent | server/main.go:72-75 | takes the oldest event; the sentinel ends the loop |
| Server.SignalingServer.SendToStream | server/main.go:76-78 | delivers the event, or ends the loop when the stream fails |
| Server.SignalingServer.DeferredDelete | server/main.go:64-67 | removes whatever is registered under the stream's ID |
| Server.SignalingServer.DeferredClose | server/main.go:68 | closes the channel; a second close would crash |
| Server.SignalingServer.BeginSendSignal | server/main.go:86-124 | looks up, deletes on a disconnect, and answers at once what fails there |
| Server.SignalingServer.SendOn | server/main.go:102-150 | a send appends one message, waits or gives up on a full channel, and crashes on a closed one |
| Server.SignalingServer.ContinueSendSignal | server/main.go:102-152 | each call's next channel operation, with what each side is told of the other |
| SignalingSafety.RegistryAlwaysSafe | server/main.go:53-95 | from any safe state, every run keeps registered sessions under their own ID with open channels, and queues within 32 |
| SignalingHistory.RegistryHistoryStep | server/main.go:53-95 | the registry is always what registrations, deferred deletes and disconnects made it |
| SignalingHistory.StreamHistoryStep | server/main.go:72-79 | nothing on a channel is lost, added or reordered between enqueueing and the handler, step by step |
| SignalingHistory.CallHistoryStep | server/main.go:117-152 | every call has put on channels exactly what its progress says, step by step |
| SignalingHistory.DisconnectHistoryStep | server/main.go:89-101 | a disconnect that was not refused has exactly one disconnect event, with its ID, and no other call has any, step by step |
| SignalingRuns.InvAlways | server/main.go:36-153 | all of these hold in every reachable state, for any interleaving |
| SignalingRuns.RegistrySafety | server/main.go:53-70 | in every run registered sessions are under their own ID with open channels, and every channel is closed at most once |
| SignalingRuns.LookupOf | server/main.go:89-120 | every call of a run began with one action of it, and what it looked up is the registry of the state in which that action was taken |
| SignalingRuns.RegistrationOf | server/main.go:45-55 | every session of a run was made by one registration of it and keeps the registered ID, public address, port and local address |
| SignalingRuns.RegisteredIff | server/main.go:53-95 | a session is registered if and only if the last action of the run that registers its ID, disconnects it, or deletes it at a stream's end is its own registration |
| SignalingRuns.LoopsUnregistered | server/main.go:64-67 | a run in which a session's loop waits while the session is not registered |
| SignalingRuns.CrashIff | server/main.go:68-150 | a step of a run crashes the server if and only if a call sends to a closed channel, and that channel was open and registered in the state of the call's lookup |
| SignalingRuns.SendsToClosed | server/main.go:117-141 | a run in which a call does |
| SignalingRuns.DialAccounting | server/main.go:117-152 | a successful dial has put exactly one message on each side's channel, each with what the other side registered, field by field, the two sessions being those in the registry of the state of its lookup; a refused one nothing |
| SignalingRuns.DialSucceeds | server/main.go:117-152 | a dial between registered nodes with room in their queues succeeds in two sends, and each side has one more message, the other's data |
| SignalingRuns.UnsupportedIsRefused | server/main.go:112-115 | a request of any other kind is refused and does nothing |
| SignalingRuns.SendsOrWaits | server/main.go:102-150 | a disconnect is answered by its next step, also on a full channel; a dial waits exactly while 32 messages are queued; what is sent goes to the end of the queue |
| SignalingRuns.LeavesLoopIff | server/main.go:72-79 | a stream leaves its loop exactly when it takes the sentinel or its client is gone |
| SignalingRuns.RoundDelivers | server/main.go:72-79 | one round of the loop takes the oldest event off the queue and delivers it |
| SignalingRuns.TearsDown | server/main.go:64-70 | a stream that has left its loop ends with its ID unregistered and its channel closed, without a crash |
| SignalingRuns.DeliveredInOrder | server/main.go:72-79 | what a stream delivered is a prefix of what was enqueued before the first sentinel, queues hold at most 32, and while it waits nothing else is missing |
| SignalingRuns.DisconnectAccounting | server/main.go:86-109 | in every run the disconnects of an ID that found it registered never outnumber its registrations, both counted over the actions |
| SignalingRuns.RefusedAfterDisconnect | server/main.go:89-124 | after a disconnect of an ID, and until an action registers it again, the ID is not registered, and every dial or disconnect of it is refused and has no effect |
| SignalingRuns.DisconnectOutcome | server/main.go:86-109 | a disconnect of a registered ID removes it in the step of its lookup, is never refused, and puts at most the sentinel, on the channel of the session it found; any other is refused and does nothing |
| Stun.ParseResponse | daemon/src/nat/stun.rs:43-96 | the loop terminates on all bytes and computes the specified walk |
| Stun.DecodesV4 | daemon/src/nat/stun.rs:63-75 | undoing the exclusive-or gives back the address and port the encoder was given |
| Stun.ParsesMessage | daemon/src/nat/stun.rs:43-96 | for every Binding Success message of well-formed attributes the result is the first IPv4 mapped address, or not found (sections 6, 15 and 15.2 of RFC 5389) |
| Stun.AnswerInBytes | daemon/src/nat/stun.rs:63-75 | port and address are the bytes of the value exclusive-or'ed with 0x21, 0x12 and with 0x21, 0x12, 0xA4, 0x42, most significant first |
| Stun.ParsesBytes | daemon/src/nat/stun.rs:43-75 | every message that begins 01 01, has 18 more header bytes and then 00 20 00 08 and an IPv4 value yields that address |
| Stun.RefusedBecause | daemon/src/nat/stun.rs:43-52 | a message of fewer than 20 bytes is too short, and any type but 0x0101 is refused with that type |
| Stun.WalkOutcome | daemon/src/nat/stun.rs:54-96 | on any bytes, the first complete IPv4 or truncated mapped address among the attributes decides; the walk leaves the message only in the second case |
| Stun.LeavesTheMessage | daemon/src/nat/stun.rs:61-63 | a 24-byte and a 26-byte Binding Success message on which the walk leaves the message |

## Left out

- Handshake, cipher and key generation: library code, replaced by the ideal cipher above.
- Hashing of the source: the hash is a field of the manifest and nothing more.
- QUIC, TLS, gRPC, UPnP, TUN, sockets and timers: represented by byte streams, datagrams and step choices.
- The endless loops of the datagram bridge: modelled as one method per round and, over whole runs, as steps in any order.
- Failure to dispatch a datagram or to write to the TUN device, which ends a loop: it only ends the run early.
- Disk errors and seek offsets the file system does not support: every write and seek succeeds.
- Paths: each writer has its own file; two transfers to one path are not modelled.
- Clones of a sender half: one owner per half.
- Transfer speed, elapsed time and log text: display only; a completion report is counted, not worded.
- Pointers between calls and sessions in the server: a session is its position in a list, and its data never changes after registration.
- Header flushing, request cancellation and the answer texts of the server: no effect on the registry or channels.
- Liveness of the server: a dial can wait on a full channel for ever, and a sentinel can be dropped.
- The STUN request, its transaction ID and the receive buffer of 1024 bytes: the walker is modelled on the bytes received; the code compares neither cookie, length nor transaction ID.
- Virtual addresses, hole punching, identity files, the command line and start-up: plumbing without properties over runs.
