# Emersia streaming daemon: verified model

A Dafny model of the hard core of the Emersia host daemon: the encrypted record transport,
the incremental Annex-B parser, the handshake and the UDP endpoint, the trust store with
revocation across threads, and pixel geometry, with the properties the daemon relies on over
whole runs. `dafny verify dfyconfig.toml` checks the whole project.

State that the daemon updates in place is modelled by classes (`AnnexBParser`, `BitReader`,
`ReplayWindow`, `Reassembler`, `HostEndpoint`, `HandshakeClient`, `PairingDb`,
`CaptureRateWindow`, `StderrTail`). Each method is proved equal to a function on values, and the
theorems are about those functions. Loops of the source are loops here.

How the parts lead to the main results:

- **Record transport.** `Records`, `ReplayWindow` and `Reassembler` give header and record round
  trips, the refinement of the bitmap by an unbounded set of indices, and reassembly in any order.
  `Packets`, `EndToEnd`, `OrderlyDelivery` and `SendRuns` put a network between the two ends. It may
  lose, reorder, duplicate and make up datagrams, and may put any clear bytes in front of a box it
  saw. The only thing it cannot do is seal under the session.
- **Annex-B parser.** `StartCodes` shows how the scan behaves under appending and cutting.
  `ChunkIndependence` reduces any way of cutting a stream into `push` calls to one scan over the whole
  stream, with the exact condition for success. `AccessUnits`, `ParameterSets` and `ByteConservation`
  say what the units, the parameter sets and the bytes then are, and `StreamKinds` and `StreamBytes` say
  all of it on the bytes of the stream. `BitReader` is the slice-header test.
- **Handshake and endpoint.** `Crypto` is symbolic. `Handshake` proves agreement, `Secrecy` which scalars
  it takes to make a tag or a session. `HostEndpoint`, `EndpointRuns` and `EndpointOutcomes` follow pending
  and confirmed peers over every run of datagrams and disconnects.
- **Trust.** `Pairing`, `PairingRuns` and `PairingGuesses` cover the store and its file, `Revocation` and
  `Authorization` every interleaving of control threads with the engine.
- **Geometry and small state.** `Frame`, `CaptureRate`, `StderrTail`.

Where the code does not do what a reader might expect, the model follows the code. These points are
shown by a concrete input or run, next to an exact statement of when the expected property does hold:

- The start-code scan passes over a `00 00 01` directly after a 4-byte code
  (`StartCodes.MissedCode`; exactly those are missed: `StartCodes.ReportsAllButAfterLongCode`).
- A `ue(v)` code with 32 leading zeros can wrap to 0 and look like a new picture
  (`BitReader.WrappingSlice`; exactly when: `BitReader.FirstMbIsZero`).
- At an escape `00 00 03` the bit reader also drops one zero byte of the RBSP
  (`BitReader.EscapedInput`; how much in general: `BitReader.EscapeLosesAByte`; the RBSP is read exactly
  without escapes: `BitReader.ReadsTheRbsp`).
- A record number more than 2^31 behind the newest one passes the replay check again
  (`ReplayWindow.OldReplayAccepted`; exactly when: `ReplayWindow.CheckExactly`).
- One device can hold five pending handshakes by taking over another device's address
  (`EndpointRuns.ShareCanBeExceeded`; exactly when: `EndpointRuns.ShareExceededExactly`).
- A `revoke` whose save fails marks the record but never queues the id, so a connected device stays
  connected (`Revocation.LostRevocation`; exactly when: `Revocation.CoveredExactly`).
- A failed save followed by a reload reopens a redeemed code (`PairingRuns.LostSaveReopensCode`; exactly
  when the file holds a code other than the one in memory: `PairingRuns.FollowsExactly`).
- The tag of the handshake response does not cover the host's ephemeral key; the CONFIRM does
  (`Handshake.ConfirmBindsHostEphemeral`).

Two more points where the model follows the code and not its comments:

- A comment says that the frame header has 20 bytes; the code writes 24, and so does the model.
- For HEVC only type 32 counts as a parameter set, although SPS and PPS have types 33 and 34 in
  Table 7-1 of ITU-T H.265. All claims go through the code's predicate.

## Model

| member | source | states |
|---|---|---|
| `SendRuns.DeviceGetsOnlySentFrames` | host/crates/emersia-daemon/src/transport/udp.rs:296-343 | For every run of `send_frame` calls (any peers, sizes and socket failures) using fewer than 2^31 values of the wrapping counter, and every network that loses, reorders, duplicates and forges, the device gets only exact payloads of frames sent under its session, no sent frame twice |
| `EndToEnd.OnlySentFramesOnce` | host/crates/emersia-daemon/src/transport/mod.rs:226-376 | The same from the list of frames sent, through `open_packet` and the reassembler |
| `OrderlyDelivery.ExactlyTheFramesSent` | host/crates/emersia-daemon/src/transport/mod.rs:226-376 | If nothing is lost and fragments overtake each other only inside their frame and by fewer than 64 places, exactly the sent sequence comes out, whatever is duplicated, made up, or put behind other clear bytes |
| `SendRuns.DeviceGetsExactlyTheCalls` | host/crates/emersia-daemon/src/transport/udp.rs:296-343 | The same over every run of `send_frame` calls whose sends all succeed: the device gets exactly the payloads of the calls to it, in call order |
| `SendRuns.AcceptedRecordsNameTheirCall` | host/crates/emersia-daemon/src/transport/udp.rs:312-342 | Over every run of calls, every network and every window, a record the device accepts carries the timestamp, keyframe flag and payload type of the very call whose chunk it holds, the place of that chunk, and the counter at the call |
| `SendRuns.CallSends` | host/crates/emersia-daemon/src/transport/udp.rs:318-337 | Datagram k of a call byte by byte, from the arguments of the call and the counter |
| `SendRuns.CounterAdvances` | host/crates/emersia-daemon/src/transport/udp.rs:315-320 | A call takes one counter value for the frame and one for each record attempted, the failing one included |
| `SendRuns.CounterWraps` | host/crates/emersia-daemon/src/transport/udp.rs:315-320 | After any run of calls the u32 counter is the unbounded count of values taken, modulo 2^32 |
| `SendRuns.WireWasSent` | host/crates/emersia-daemon/src/transport/udp.rs:312-342 | Every datagram a run puts on the wire is a record of a frame of that run, numbered by the unbounded counter |
| `SendRuns.SentIsOnWire` | host/crates/emersia-daemon/src/transport/udp.rs:312-342 | Conversely, every record a frame of the run got to send is on the wire |
| `EndToEnd.ReceivesOnlySent` | host/crates/emersia-daemon/src/transport/mod.rs:346-376 | A datagram that has any effect, whatever its clear bytes, has the effect of a packet that was sent and is still fresh |
| `EndToEnd.FrameSequenceNamesFrame` | host/crates/emersia-daemon/src/transport/udp.rs:315-316 | Within 2^31 counter values a frame sequence names one frame |
| `HostEndpoint.HostEndpoint.SendFrame` | host/crates/emersia-daemon/src/transport/udp.rs:296-343 | Sends the records of the frame in order until the socket fails, takes one counter value for the frame and one per record attempted, reports unknown peers and oversized payloads without taking any |
| `HostEndpoint.HostEndpoint.SendChunks` | host/crates/emersia-daemon/src/transport/udp.rs:318-342 | The loop: the datagrams of the frame up to the failing one, and the counter after it |
| `Packets.PacketOpens` | host/crates/emersia-daemon/src/transport/mod.rs:330-376 | Opening a sealed record gives back its header and payload and commits its number, exactly when the window still allows that number |
| `Packets.WindowMovesOnlyOnOk` | host/crates/emersia-daemon/src/transport/mod.rs:346-376 | The replay window changes exactly on the calls that return Ok |
| `Packets.OpenDatagram` | host/crates/emersia-daemon/src/transport/mod.rs:346-376 | The stateful `open_packet` returns and leaves behind what the pure one says, error cases included |
| `Packets.RefusedBecause` | host/crates/emersia-daemon/src/transport/mod.rs:352-367 | Which refusal the clear bytes, the window and an unsealed box lead to |
| `Packets.RefusedInside` | host/crates/emersia-daemon/src/transport/mod.rs:366-375 | What authenticates is still refused when it is no record or carries another number inside, and otherwise commits |
| `Packets.WireSeesWrappedCounter` | host/crates/emersia-daemon/src/transport/udp.rs:315-337 | Packets depend on the counter only modulo 2^32 |
| `Records.HeaderRoundTrip` | host/crates/emersia-daemon/src/transport/mod.rs:62-109 | A header reads back, as itself, exactly when it is version 1 with an index below its count |
| `Records.BytesRoundTrip` | host/crates/emersia-daemon/src/transport/mod.rs:62-109 | Accepted bytes are rebuilt exactly when their reserved bytes are zero and the flag byte is 0 or 1 |
| `Records.RecordRoundTrip` | host/crates/emersia-daemon/src/transport/mod.rs:113-152 | A built record parses back to its header and payload |
| `Records.RecordLength` | host/crates/emersia-daemon/src/transport/mod.rs:143-152 | Bytes after the payload are ignored, a payload cut short is malformed |
| `Records.OversizedRefused` | host/crates/emersia-daemon/src/transport/mod.rs:123-124 | A payload over 65535 bytes is refused with its size |
| `Records.FieldPlaces` | host/crates/emersia-daemon/src/transport/mod.rs:64-78 | The six numbers of a header stand at their byte offsets |
| `BigEndian.FirstByteWeighsMost` | host/crates/emersia-daemon/src/transport/mod.rs:70-75 | Numbers are big-endian: the first byte weighs most |
| `Records.PayloadChunks` | host/crates/emersia-daemon/src/transport/mod.rs:226-232 | The chunks join to the payload, all but the last hold exactly 1176 bytes, as few as possible, and one even for an empty payload |
| `ReplayWindow.CheckIsFresh` | host/crates/emersia-daemon/src/transport/mod.rs:171-190 | With an unbounded index per accepted number, the check admits exactly the unseen indices fewer than 64 behind the top or ahead of it, within the half range |
| `ReplayWindow.CommitIsAdmit` | host/crates/emersia-daemon/src/transport/mod.rs:196-219 | After a commit bit k is still set exactly when index top - k was accepted, across 2^32 wraps |
| `ReplayWindow.CheckExactly` | host/crates/emersia-daemon/src/transport/mod.rs:171-190 | For any index at all, which ones the check admits, by the distance modulo 2^32 |
| `ReplayWindow.RunIsIdeal` | host/crates/emersia-daemon/src/transport/mod.rs:171-219 | Over a whole run the bitmap accepts exactly what the unbounded set accepts |
| `ReplayWindow.NeverAcceptedTwice` | host/crates/emersia-daemon/src/transport/mod.rs:154-219 | No index is accepted twice in a run whose indices stay in the half range, however often the counter wraps |
| `ReplayWindow.OldReplayAccepted` | host/crates/emersia-daemon/src/transport/mod.rs:175-180 | Outside the half range: a run in which an index is accepted twice |
| `ReplayWindow.ReplayWindow.CheckSequence` | host/crates/emersia-daemon/src/transport/mod.rs:171-190 | The method answers what the pure check says |
| `ReplayWindow.ReplayWindow.CommitSequence` | host/crates/emersia-daemon/src/transport/mod.rs:196-219 | The method returns the check's answer and leaves the committed window, unchanged on refusal |
| `Reassembler.AnyOrder` | host/crates/emersia-daemon/src/transport/mod.rs:250-298 | Fragments of a frame of two or more chunks, in any order with any repeats: nothing until the last missing index arrives, then exactly the chunks joined |
| `Reassembler.PayloadInAnyOrder` | host/crates/emersia-daemon/src/transport/mod.rs:226-298 | The same from a fresh reassembler for every payload that needs two or more records |
| `Reassembler.PushValid` | host/crates/emersia-daemon/src/transport/mod.rs:281-290 | `received` always equals the number of filled slots |
| `Reassembler.OtherFrames` | host/crates/emersia-daemon/src/transport/mod.rs:254-279 | A fragment that disagrees about the count is refused and keeps the frame, a whole frame or another frame sequence drops it |
| `Reassembler.Reassembler.PushRecord` | host/crates/emersia-daemon/src/transport/mod.rs:250-298 | The method keeps the state valid and does what the pure push says |
| `ChunkIndependence.ChunkingDoesNotMatter` | host/crates/emersia-daemon/src/codec.rs:314-392 | Any two error-free ways of cutting the same bytes into `push` calls give the same units and the same parser state |
| `ChunkIndependence.RunIsWholeStream` | host/crates/emersia-daemon/src/codec.rs:314-392 | A run succeeds exactly when its limits are kept and the pieces of the whole stream are accepted; its units and state are then those of one scan over everything |
| `ChunkIndependence.ParseAllIsWholeStream` | host/crates/emersia-daemon/src/codec.rs:314-341 | The same for a stream that is pushed and finished, with the units, the whole state and the buffer that `finish` leaves (everything without a start code, otherwise nothing) |
| `ChunkIndependence.TakesFirstPiece` | host/crates/emersia-daemon/src/codec.rs:347-392 | `take_next_nal` hands out the first non-empty piece of its buffer and leaves the rest of the pieces, or fails exactly on a header-only one |
| `StreamBytes.RunSucceedsExactly` | host/crates/emersia-daemon/src/codec.rs:314-392 | Exactly which streams parse and finish, on their bytes: within the limits, every piece goes on after its header, no group of sets over 1024 bytes |
| `StreamBytes.UnitsOnBytes` | host/crates/emersia-daemon/src/codec.rs:396-468 | The units of every error-free run on the stream bytes: where they are cut by the byte after each start code and the first slice bit, their bytes, index, and keyframe flag by that byte |
| `StreamBytes.FinishedUnitsOnBytes` | host/crates/emersia-daemon/src/codec.rs:330-341 | The same after `finish`, with every piece in exactly one unit |
| `StreamBytes.SetsOnBytes` | host/crates/emersia-daemon/src/codec.rs:414-446 | Pending and committed parameter sets of every error-free run, on the stream bytes |
| `StreamKinds.NalAgrees` | host/crates/emersia-daemon/src/codec.rs:103-168 | Each test on a NAL unit is the one on the byte after its start code and the first slice bit |
| `StreamKinds.PiecesSpelled` | host/crates/emersia-daemon/src/codec.rs:369-391 | Every piece of a stream opens with the start code its width says |
| `StartCodes.PiecesIncremental` | host/crates/emersia-daemon/src/codec.rs:347-392 | Taking the pieces out of a prefix and going on with what is left finds the same pieces and leaves the same rest as one pass |
| `StartCodes.ScanAppend` | host/crates/emersia-daemon/src/codec.rs:483-500 | Appended bytes never change what the scan reported |
| `StartCodes.ScanCut` | host/crates/emersia-daemon/src/codec.rs:483-500 | A buffer cut at any reported code reports the codes from there on |
| `StartCodes.ScanFacts` | host/crates/emersia-daemon/src/codec.rs:471-500 | Every reported code is 00 00 01 with its one leading zero if there is one, and codes do not overlap |
| `StartCodes.ReportsAllButAfterLongCode` | host/crates/emersia-daemon/src/codec.rs:483-500 | A 00 00 01 is reported exactly when the four bytes before it are not 00 00 00 01 |
| `StartCodes.MissedCode` | host/crates/emersia-daemon/src/codec.rs:494-494 | The shortest stream with an unreported start code |
| `StartCodes.StartCodePositions` | host/crates/emersia-daemon/src/codec.rs:483-500 | The scanning loop computes the recursive scan |
| `AnnexB.TakeNext` | host/crates/emersia-daemon/src/codec.rs:347-392 | Taking a NAL never grows the buffer and a NAL taken shrinks it, so the recursion and the loop around it end |
| `AnnexB.AnnexBParser.TakeNextNal` | host/crates/emersia-daemon/src/codec.rs:347-392 | The method returns and leaves in the buffer what the pure function says, and touches nothing else |
| `AnnexB.AnnexBParser.AcceptNal` | host/crates/emersia-daemon/src/codec.rs:396-446 | Boundary decision, parameter-set collection, commit and append as one step on the assembly state |
| `AnnexB.AnnexBParser.CollectSets` | host/crates/emersia-daemon/src/codec.rs:417-430 | An AUD drops the uncommitted sets, a parameter set opens or extends the group |
| `AnnexB.AnnexBParser.FlushCurrent` | host/crates/emersia-daemon/src/codec.rs:449-468 | Emits the held NALs with their joined bytes, the keyframe flag by existence, and the next index |
| `AnnexB.AnnexBParser.PushBytes` | host/crates/emersia-daemon/src/codec.rs:314-327 | Units, error and whole state after `push`, units discarded on error |
| `AnnexB.AnnexBParser.FinishStream` | host/crates/emersia-daemon/src/codec.rs:330-341 | Units, error and whole state after `finish` |
| `AccessUnits.UnitsAreGreedySplit` | host/crates/emersia-daemon/src/codec.rs:396-468 | The units and the held NALs are a greedy split of the NAL list; indices run from 0, bytes and keyframe flags are those of the NALs |
| `AccessUnits.GreedyIsUnique` | host/crates/emersia-daemon/src/codec.rs:396-468 | A NAL list has only one greedy split |
| `AccessUnits.RunSplitsGreedily` | host/crates/emersia-daemon/src/codec.rs:314-468 | The same for every error-free run over any chunks |
| `AccessUnits.InsideLegalUnit` | host/crates/emersia-daemon/src/codec.rs:396-412 | Inside a unit an AUD comes only first, and after picture data no parameter set, SEI or picture-starting slice |
| `ParameterSets.RunTracksSets` | host/crates/emersia-daemon/src/codec.rs:414-446 | In every error-free run the pending prefix is the group since the last VCL or AUD, the committed one the group of the most recent VCL that had one, both within 1024 bytes |
| `ParameterSets.LastCommit` | host/crates/emersia-daemon/src/codec.rs:437-443 | The most recent VCL that closed a group of sets: it did, and none later did |
| `ByteConservation.RunConserves` | host/crates/emersia-daemon/src/codec.rs:314-392 | After any error-free run, unit bytes, held NALs and buffer miss exactly the bytes before the first code and the empty codes, and are the input exactly when there are none |
| `ByteConservation.ParseAllConserves` | host/crates/emersia-daemon/src/codec.rs:314-341 | After `finish` the same for the units alone |
| `ByteConservation.CleanStreamLosesNothing` | host/crates/emersia-daemon/src/codec.rs:364-368 | A stream that begins with a code loses nothing exactly when it has no empty NAL and, once finished, does not end in a bare code |
| `ByteConservation.FirstCodeAtZero` | host/crates/emersia-daemon/src/codec.rs:483-500 | The first reported code is at offset 0 exactly when the stream opens with a code |
| `BitReader.ReadsBackUe` | host/crates/emersia-daemon/src/codec.rs:559-575 | Every value up to 2^32 - 2 reads back from its ue(v) code, whatever follows, with at most 31 leading zeros |
| `BitReader.UeIsTheCode` | host/crates/emersia-daemon/src/codec.rs:559-575 | Conversely, a value read after at most 31 zeros is the one whose code stands at the front |
| `BitReader.ByteSpelled` | host/crates/emersia-daemon/src/codec.rs:537-537 | The eight bits of a byte, in reading order, spell it |
| `BitReader.PackedUeReadsBack` | host/crates/emersia-daemon/src/codec.rs:507-575 | The same from packed bytes, when no escape starts at a byte that is used up before the code ends |
| `BitReader.FirstMbIsZero` | host/crates/emersia-daemon/src/codec.rs:137-151 | The H.264 new-picture test holds exactly when the first bit is one or the slice opens with the one code that wraps |
| `BitReader.WrappingSlice` | host/crates/emersia-daemon/src/codec.rs:563-574 | A slice whose first bit is zero and which still reads as zero |
| `BitReader.ReadsTheRbsp` | host/crates/emersia-daemon/src/codec.rs:533-552 | The reader gives the bits of the RBSP exactly when the input holds no 00 00 03 |
| `BitReader.EscapeLosesAByte` | host/crates/emersia-daemon/src/codec.rs:541-549 | Each escape met costs one zero byte of the RBSP |
| `BitReader.EscapedInput` | host/crates/emersia-daemon/src/codec.rs:541-549 | The shortest input with an escape: of two RBSP bytes one is read |
| `BitReader.BitReader.ReadBit` | host/crates/emersia-daemon/src/codec.rs:533-552 | Takes the first of the remaining bits, or reports the end |
| `BitReader.BitReader.ReadUe` | host/crates/emersia-daemon/src/codec.rs:559-575 | Returns the Exp-Golomb value of the remaining bits |
| `BitReader.BitReader.ReadLeading` | host/crates/emersia-daemon/src/codec.rs:560-566 | Counts the zeros before the first one, giving up above 32 |
| `BitReader.BitReader.ReadValue` | host/crates/emersia-daemon/src/codec.rs:570-573 | Shifts the next bits into a u32 that starts as 1 |
| `Handshake.HandshakeAgrees` | host/crates/emersia-daemon/src/transport/handshake.rs:98-298 | For all keys, a device that pinned this host and the host derive the same session, and the confirm verifies |
| `Handshake.PinDecides` | host/crates/emersia-daemon/src/transport/handshake.rs:216-252 | A host accepts a device's init exactly when it is the pinned one, and otherwise answers with the init error |
| `Handshake.AcceptedInit` | host/crates/emersia-daemon/src/transport/handshake.rs:216-284 | An init is accepted exactly when it is the packet some device with its id and keys makes for this host |
| `Secrecy.InitTagTakes` | host/crates/emersia-daemon/src/transport/handshake.rs:106-130 | A fresh tag the host accepts takes exactly the host's static scalar, or both of the device's |
| `Secrecy.ResponseTagTakes` | host/crates/emersia-daemon/src/transport/handshake.rs:153-162 | The same for a fresh response tag the device accepts |
| `Secrecy.SessionTakes` | host/crates/emersia-daemon/src/transport/handshake.rs:254-262 | The final session takes one of the two ephemerals besides what the first key takes |
| `Secrecy.ForwardSecrecy` | host/crates/emersia-daemon/src/transport/handshake.rs:164-172 | Without either ephemeral the session cannot be derived, both static scalars known or not |
| `Secrecy.ConfirmTakes` | host/crates/emersia-daemon/src/transport/handshake.rs:287-298 | A fresh confirm that verifies takes the session |
| `Secrecy.TagsAreSeparate` | host/crates/emersia-daemon/src/transport/handshake.rs:124-183 | No INIT or RESPONSE tag confirms a session, and no INIT tag passes as a response |
| `Secrecy.TagsOnTheWire` | host/crates/emersia-daemon/src/transport/handshake.rs:124-183 | Direction and number of the three tags as associated data, byte by byte |
| `Secrecy.OutsiderOffers` | host/crates/emersia-daemon/src/crypto.rs:421-464 | Whoever cannot derive the session can only offer its boxes from the wire |
| `Handshake.SessionNamesItsRun` | host/crates/emersia-daemon/src/transport/handshake.rs:98-111 | Equal sessions come from the same id, device keys, host key and both ephemerals, through the transcript bytes |
| `Handshake.InitBodyInjective` | host/crates/emersia-daemon/src/transport/handshake.rs:98-104 | The init body, which joins its fields without separators, names each of them, because of their fixed widths |
| `Handshake.InitSaltInjective` | host/crates/emersia-daemon/src/transport/handshake.rs:107-111 | So does the hash of its transcript |
| `Handshake.ResponseSaltInjective` | host/crates/emersia-daemon/src/transport/handshake.rs:164-172 | The second salt names the first one and the host ephemeral |
| `Handshake.ConfirmBindsHostEphemeral` | host/crates/emersia-daemon/src/transport/handshake.rs:139-183 | A substituted host ephemeral passes the response check, but the confirm verifies exactly when it was the host's own |
| `Handshake.HandshakeClient.Finish` | host/crates/emersia-daemon/src/transport/handshake.rs:139-173 | One response is considered, once; out of order it changes nothing |
| `Crypto.EncodeInjective` | host/crates/emersia-daemon/src/crypto.rs:367-375 | The length-prefixed transcript encoding is injective on lists of byte strings |
| `Crypto.Transcript` | host/crates/emersia-daemon/src/crypto.rs:367-375 | The loop hashes that encoding |
| `Crypto.AadRoundTrip` | host/crates/emersia-daemon/src/crypto.rs:396-412 | Direction and sequence survive the associated data, and no other bytes parse to them |
| `Crypto.OpensOnlyAsSealed` | host/crates/emersia-daemon/src/crypto.rs:421-464 | Through the associated data, a box opens exactly under the session, direction and number it was sealed with |
| `Crypto.KeyBytesInjective` | host/crates/emersia-daemon/src/transport/handshake.rs:98-104 | Public keys are told apart by their 32 bytes |
| `EndpointRuns.PeerTraces` | host/crates/emersia-daemon/src/transport/udp.rs:104-221 | In every reachable state each confirmed peer traces to an authorized, answered INIT from its address and id, less than 10 s before a CONFIRM that verified under that session while authorization held |
| `EndpointRuns.InsertionTraces` | host/crates/emersia-daemon/src/transport/udp.rs:186-221 | The same for every insertion of the run, including peers that are gone since |
| `EndpointRuns.OneInsertionPerInit` | host/crates/emersia-daemon/src/transport/udp.rs:171-219 | Each answered INIT leads to at most one insertion |
| `EndpointOutcomes.ConfirmSucceeds` | host/crates/emersia-daemon/src/transport/udp.rs:104-221 | An answered INIT whose CONFIRM verifies within ten seconds, still authorized, makes a peer with that session, whatever others do meanwhile |
| `EndpointOutcomes.EntrySurvives` | host/crates/emersia-daemon/src/transport/udp.rs:123-128 | An entry younger than ten seconds outlives every event that concerns neither its address nor its device |
| `EndpointOutcomes.ConfirmOutcome` | host/crates/emersia-daemon/src/transport/udp.rs:186-221 | What a CONFIRM does to the tables in each case; the entry is always used up |
| `EndpointOutcomes.DeviceDataMoves` | host/crates/emersia-daemon/src/transport/udp.rs:223-234 | A fresh record the device sealed commits its number in the peer's window, and changes nothing else |
| `EndpointOutcomes.DataElsewhere` | host/crates/emersia-daemon/src/transport/udp.rs:223-226 | Data touches no peer at another address |
| `EndpointOutcomes.DisconnectPurges` | host/crates/emersia-daemon/src/transport/udp.rs:283-289 | Nothing of the device is left and nothing of any other is touched |
| `EndpointRuns.PendingBounded` | host/crates/emersia-daemon/src/transport/udp.rs:152-164 | Never more than 64 pending handshakes in any reachable state |
| `EndpointRuns.ShareExceededExactly` | host/crates/emersia-daemon/src/transport/udp.rs:152-179 | A device within its share of four leaves it exactly by an authorized, valid INIT from an address with another device's live entry while the share is full |
| `EndpointRuns.AnsweredExactly` | host/crates/emersia-daemon/src/transport/udp.rs:130-184 | An INIT is answered exactly when it is authorized, within the limits and valid |
| `EndpointRuns.ShareBounded` | host/crates/emersia-daemon/src/transport/udp.rs:152-179 | Never more than four per device while no live address changes its device id |
| `EndpointRuns.ShareCanBeExceeded` | host/crates/emersia-daemon/src/transport/udp.rs:152-179 | A run from the empty endpoint after which one device holds five entries |
| `HostEndpoint.HostEndpoint.Handle` | host/crates/emersia-daemon/src/transport/udp.rs:104-121 | State and reply after one datagram; data goes to some peer at that address if there is one |
| `HostEndpoint.HostEndpoint.OnInit` | host/crates/emersia-daemon/src/transport/udp.rs:130-184 | The INIT handler: silent unless authorized, within limits and valid |
| `HostEndpoint.HostEndpoint.OnConfirm` | host/crates/emersia-daemon/src/transport/udp.rs:186-221 | The CONFIRM handler, with the peer dropped when authorization is gone |
| `HostEndpoint.HostEndpoint.OnData` | host/crates/emersia-daemon/src/transport/udp.rs:223-234 | Only the window of the chosen peer changes |
| `HostEndpoint.HostEndpoint.PrunePending` | host/crates/emersia-daemon/src/transport/udp.rs:123-128 | Keeps exactly the entries younger than the TTL and not from the future |
| `HostEndpoint.HostEndpoint.DisconnectDevice` | host/crates/emersia-daemon/src/transport/udp.rs:283-289 | Removes the peer and every pending entry of the id, and says whether there was any |
| `Revocation.CoveredExactly` | host/crates/emersia-daemon/src/service.rs:452-466 | Every move of any thread keeps each connected id trusted or on its way out, exactly unless it is a revoke of a connected device whose save fails |
| `Authorization.PeerWasVouchedFor` | host/crates/emersia-daemon/src/service.rs:957-966 | Along every interleaving, each peer was made by a CONFIRM read when the store held its id, not revoked, with the key of the pending entry |
| `Authorization.AllowedExactly` | host/crates/emersia-daemon/src/service.rs:957-963 | The authorizer says yes exactly to a stored, unrevoked id that presents its stored key |
| `Revocation.AlwaysCovered` | host/crates/emersia-daemon/src/service.rs:937-966 | That invariant in every state of every interleaving |
| `Revocation.LoadedIsCovered` | host/crates/emersia-daemon/src/main.rs:288-288 | A daemon just started on any stored devices is covered |
| `Revocation.DrainedMeansTrusted` | host/crates/emersia-daemon/src/service.rs:937-966 | From any covered start, with the queue drained and no revoke between its steps every connected peer is active |
| `Revocation.RevokeDisconnects` | host/crates/emersia-daemon/src/service.rs:452-466 | After a revoke, the engine's next drain disconnects the device for good, until it pairs again |
| `Revocation.LostRevocation` | host/crates/emersia-daemon/src/service.rs:455-464 | A run from an empty store (mint, redeem, INIT, CONFIRM) after which a revoke with a failing save leaves the device connected, neither trusted nor on its way out, and a second revoke does nothing |
| `Hex.DeviceIdRoundTrip` | host/crates/emersia-daemon/src/service.rs:32-41 | `decode_device_id` inverts the hex text of every eight-byte id |
| `Hex.EncodeIsLowerHex` | host/crates/emersia-daemon/src/service.rs:958-959 | Ids are compared as lower-case hex text |
| `Hex.DecodeDeviceIdLoop` | host/crates/emersia-daemon/src/service.rs:32-41 | The loop decodes pair by pair and fails exactly where the recursive decoder does |
| `PairingRuns.AtMostFiveGuesses` | host/crates/emersia-daemon/src/pairing.rs:231-279 | A code takes at most five wrong guesses, reloads included |
| `PairingGuesses.PendingExactly` | host/crates/emersia-daemon/src/pairing.rs:215-299 | The pending code, counted from the events alone: the latest mint, unless a right or late request or a reload ended it or five requests missed it |
| `PairingGuesses.FiveGuessesBurn` | host/crates/emersia-daemon/src/pairing.rs:267-283 | After five wrong guesses no code is pending |
| `PairingGuesses.NoneUntilNextMint` | host/crates/emersia-daemon/src/pairing.rs:267-283 | And no request registers until the next mint |
| `PairingGuesses.RegistersExactly` | host/crates/emersia-daemon/src/pairing.rs:231-299 | A request registers a device exactly when it redeems the code the events leave, with the name trimmed and the key as given |
| `PairingGuesses.AnswersExactly` | host/crates/emersia-daemon/src/pairing.rs:231-299 | The answer to any request, by what the events left |
| `PairingGuesses.NotedGuesses` | host/crates/emersia-daemon/src/pairing.rs:267-283 | The wrong guesses a run notes are those made, up to five |
| `PairingRuns.NeverExhausted` | host/crates/emersia-daemon/src/pairing.rs:261-265 | The separate attempt check before the comparison is never what refuses a guess |
| `PairingRuns.RegistrationRedeemsLatestMint` | host/crates/emersia-daemon/src/pairing.rs:215-299 | Each registration redeems the latest mint: same code, not expired, fewer than five wrong guesses, no registration since |
| `PairingRuns.OneDevicePerCode` | host/crates/emersia-daemon/src/pairing.rs:281-298 | Between two registrations a new code was minted |
| `PairingRuns.FollowsExactly` | host/crates/emersia-daemon/src/pairing.rs:164-184 | From a store whose pending code is the one its history leaves open, a step keeps that exactly unless it is a reload whose file holds a code other than the one in memory |
| `PairingRuns.ActiveExactly` | host/crates/emersia-daemon/src/pairing.rs:317-332 | A device is active exactly when its last registration was not followed by a revoke, in runs where no reload changes whether it is active |
| `PairingRuns.ActiveStep` | host/crates/emersia-daemon/src/pairing.rs:164-184 | Once the history tells whether a device is active, a step keeps that exactly unless it is a reload whose file disagrees with memory about the device |
| `PairingRuns.SavedRunsLoseNothing` | host/crates/emersia-daemon/src/pairing.rs:164-212 | Runs whose saves all succeed never reopen a code, and the file equals the memory |
| `PairingRuns.SavedRunsRevertNothing` | host/crates/emersia-daemon/src/pairing.rs:164-212 | Nor do they ever change a device by a reload |
| `PairingRuns.LostSaveReopensCode` | host/crates/emersia-daemon/src/pairing.rs:295-297 | A failed save and a reload: two devices register with one mint |
| `Pairing.PairingDb.NewCode` | host/crates/emersia-daemon/src/pairing.rs:215-228 | Replaces the pending code, with its expiry and no attempts, then saves |
| `Pairing.PairingDb.AcceptCode` | host/crates/emersia-daemon/src/pairing.rs:231-299 | Memory, file and result for each verdict, and when the save fails |
| `Pairing.PairingDb.RevokeDevice` | host/crates/emersia-daemon/src/pairing.rs:317-332 | Memory, file and result, for unknown and already revoked ids too |
| `Pairing.PairingDb.Save` | host/crates/emersia-daemon/src/pairing.rs:188-212 | The file becomes the memory, or stays as it was on failure |
| `Pairing.DisplayedCodeParses` | host/crates/emersia-daemon/src/crypto.rs:513-536 | A code parses to itself, plain and as displayed |
| `Pairing.LettersSpoil` | host/crates/emersia-daemon/src/crypto.rs:513-523 | A letter anywhere makes the input no code |
| `Pairing.TrimExactly` | host/crates/emersia-daemon/src/pairing.rs:242-253 | Trimming takes the spaces at both ends off, and nothing more |
| `Pairing.RevokedRecord` | host/crates/emersia-daemon/src/pairing.rs:317-332 | A revoked record is the same device, marked with the time, and no other changes |
| `Frame.ForwardIsBijection` | host/crates/emersia-daemon/src/frame.rs:52-81 | For every size and transform, `forward` is one to one and onto the buffer |
| `Frame.ForwardInverts` | host/crates/emersia-daemon/src/frame.rs:68-81 | 90 and 270 undo each other, the other transforms undo themselves |
| `Frame.QuarterTurn` | host/crates/emersia-daemon/src/frame.rs:62-71 | 90 is a quarter turn counter-clockwise about the centre |
| `Frame.Mirror` | host/crates/emersia-daemon/src/frame.rs:62-74 | `flipped` mirrors about the vertical axis |
| `Frame.TurnsCompose` | host/crates/emersia-daemon/src/frame.rs:62-81 | 180 and 270 are two and three quarter turns, `flipped_N` is `flipped` and then N, unknown values change nothing |
| `Frame.UndoesExactly` | host/crates/emersia-daemon/src/frame.rs:91-106 | Undoing gives an image exactly when the buffer is that image with the transform applied |
| `Frame.UndoTwice` | host/crates/emersia-daemon/src/frame.rs:91-106 | Undoing a transform and then its inverse restores every buffer |
| `Frame.Untransform` | host/crates/emersia-daemon/src/frame.rs:91-106 | The nested loops compute that undoing, with the upright size |
| `Frame.FlipRows` | host/crates/emersia-daemon/src/frame.rs:109-120 | The row copies compute the vertical flip |
| `Frame.FlipTwice` | host/crates/emersia-daemon/src/frame.rs:109-120 | Flipping rows twice restores the image |
| `Frame.OffsetsFitExactly` | host/crates/emersia-daemon/src/frame.rs:96-103 | The u32 byte offsets overflow nowhere exactly when the frame has at most 2^30 pixels |
| `Frame.PoolLimitFits` | host/crates/emersia-daemon/src/shm.rs:39-50 | Every frame that passes the pool size check is within that, in both orientations |
| `CaptureRate.EveryCaptureCountedOnce` | host/crates/emersia-daemon/src/service.rs:121-149 | Closed counts plus the open count equal the captures since the reset |
| `CaptureRate.LatestRateExactly` | host/crates/emersia-daemon/src/service.rs:128-149 | For captures at any times: the open window holds the captures less than two seconds after its first, and the rate is the count of the window before over its length |
| `CaptureRate.SteadyRateIsExact` | host/crates/emersia-daemon/src/service.rs:128-149 | At any constant spacing d each closed window reports exactly 1/d |
| `CaptureRate.SteadyRateIsReported` | host/crates/emersia-daemon/src/service.rs:152-161 | At any time after steady captures a reader sees 1/d while the latest capture is under two seconds old and a window has closed, and zero otherwise |
| `CaptureRate.CaptureRateWindow.RecordCapture` | host/crates/emersia-daemon/src/service.rs:128-149 | Opens, extends or rolls over the window |
| `StderrTail.StderrTail.PushLine` | host/crates/emersia-daemon/src/encoder.rs:62-82 | After any pushes the lines are the longest fitting suffix of the truncated history, `bytes` is their sum, the newest is kept |
| `StderrTail.TailIsLongest` | host/crates/emersia-daemon/src/encoder.rs:76-81 | The tail is a suffix within 32 lines and 16 KiB, and no longer suffix is |
| `StderrTail.TailSnoc` | host/crates/emersia-daemon/src/encoder.rs:74-81 | Dropping early loses nothing: the tail of the history is the tail of the kept lines |
| `StderrTail.TailKeepsNewest` | host/crates/emersia-daemon/src/encoder.rs:74-81 | The newest line always fits |
| `StderrTail.TruncatedIs` | host/crates/emersia-daemon/src/encoder.rs:64-72 | Up to 4096 bytes a line is kept; a longer one becomes its longest front within them that ends between characters, and three dots |
| `StderrTail.StderrTail.Truncate` | host/crates/emersia-daemon/src/encoder.rs:64-72 | Cuts an overlong line at the last character boundary within the limit and marks it |

## Left out

- X25519, HKDF, SHA-256, ChaCha20-Poly1305, nonces and the random source: terms of an ideal algebra. Hashes do not collide, and a box opens only under its session, direction key and associated data. The bytes that are hashed and authenticated are the code's; the 32 bytes of a public key are a tag and a number, not a curve point, and the two 32-byte inputs of a key derivation are a list.
- Wayland capture, registry dispatch and shm allocation: only the pool size bound is kept.
- `decode` of pixel formats, padding and PNG writing in `frame.rs`: byte shuffles with only easy claims.
- The ffmpeg child process, its pipes and threads in `encoder.rs`, and the parameter sets its reader thread attaches to units: sampled once per `push`, so they depend on the chunking.
- UDP sockets and `pump`: datagrams, addresses, clock readings and the number of datagrams the socket takes are inputs. A client endpoint's own socket loop is not part of this model.
- JSON, the control socket, peer credentials, command lines and the test receiver's reporting.
- File formats and permissions: `load` and `save` copy the record, and whether a save works is an input. A corrupt file is not modelled.
- Handshake packets carry their fields as terms; lengths appear only as the two too-short variants. The check that a fresh `HandshakeServer` has not been used is left out, since the endpoint makes one per INIT.
- HostEndpoint.HostEndpoint.Handle: the order in which a hash map is searched for a peer at an address is left open; the method picks any.
- Revocation: the mutexes of `service.rs` become the atomic moves of a transition system, not a class with locks; any number of control threads may be between the two steps of a revoke.
- Revocation: how stored key text is compared with a presented key is a parameter of the authorizer.
- Pairing: device ids are opaque inputs of a registration; their derivation by hashing the hex text is not modelled. Messages of rejected requests are not told apart, and `trim` removes ASCII spaces only.
- Hex.DecodeDeviceIdLoop: text is a sequence of characters, so slicing inside a multi-byte character does not arise.
- BitReader.Minus1: the subtraction in `read_ue` is modelled as wrapping; a build with overflow checks stops there instead, and only after 32 leading zeros and 32 zero bits.
- Frame: a pixel is one group of four bytes; the offsets into the byte arrays are the subject of the overflow lemmas only.
- CaptureRate: floating point is modelled by real numbers.
- Counters of u64 and usize width (unit index, buffer positions, byte sums) are unbounded.
