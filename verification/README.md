# b2p relay transfer: a verified model

b2p sends a file, a folder or a text from one machine to another. Both ends meet under a short code;
in the relay mode modelled here they dial a room of a small relay service, agree on a key with SPAKE2,
and stream the file as sealed 16 KiB chunks that survive interrupted sessions. This project models that
stack layer by layer, and proves what each layer promises to the one above, up to one end-to-end
statement: under every schedule of both endpoints and both directions, cut anywhere and retried any
number of times, with right or wrong codes, nothing but an offered source ever comes out and an uncut
session cannot deadlock. When it stops, the receiver has exactly the source, after exactly the missing
chunks were sent, if and only if every frame is within the relay's frame limit and what earlier sessions
staged under the transfer's id is the source's.

`dafny verify dfyconfig.toml` checks everything.

## How it is built

| module | models | form |
|---|---|---|
| `Bytes` | byte strings, little-endian numbers | functions |
| `Codec` | `pack_frames`, `Debatcher` | classes with a mutable queue and buffer, specified by `Pack` and `Debatch` |
| `RelayLink` | `RelayChannel::send`, the io task, acks | classes; one direction as a state machine (`Link`, `Step`, `Next`) |
| `Runs`, `Chunks` | run-length acks, chunk arithmetic | functions and a loop |
| `Crypto` | nonces, sealing | a loop filling an array; a symbolic cipher |
| `Store` | the staging folder | a class over a disk whose ghost history records every effect; crash points |
| `Transfer` | `send_source`, `recv_into`, `finalize` | methods over a mutable channel and store, specified by step functions |
| `Verdicts` | what either end reports and answers, for any frames | exact laws, step by step and over whole runs |
| `Resume`, `Faults` | whole runs of interrupted sessions; arbitrary channels | lemmas |
| `Handshake` | SPAKE2 with confirmation, over a channel and over an echoing log | methods; a state machine for the log |
| `Duplex` | two endpoints, two io tasks, two directions, any schedule | a state machine |
| `EndToEnd` | `send_relay`, `receive_relay` | the two endpoints composed over `Duplex` |
| `Meetings` | any number of such sessions, one after another | runs of meetings, each with its own parties, source, schedule, cut and crash |
| `Upload` | the HTTP receiver's handlers, the uploader's retries | a class with an optional active transfer |
| `Room` | the relay's Durable Object | a class; a state machine over joins, messages, close events and the alarm |
| `Stun`, `RvCode`, `CloseLatch` | the STUN walk, the code parser and printer, the WebRTC close latch | a loop over bytes; functions; a state machine of atomic steps |

A loop of the program is a method proved against a function; a protocol is a step relation whose
invariant is kept by every step, and whose main result is about every run. An endpoint of the
end-to-end theorem is the function its methods were proved against: what it has sent once it has
read given frames.

Assumptions, all of them visible as datatypes or parameters:

- Sealing is symbolic: a ciphertext is `Sealed(key, nonce, aad, plain)`, opened by the same key, nonce and
  additional data only. The nonce is the program's own 24 bytes, so index arithmetic is not assumed away.
  BLAKE3 digests are injective (`Digest(content)`). SPAKE2 derives a key from the password, the context
  and the two messages, so both ends get one key exactly when password and context agree
  (`Handshake.SameKeyIff` only spells this assumption out); confirmation MACs differ when key or role
  does (`MacsDiffer`).
- Of the staging folder only its shape is assumed: for a stream transfer the data file has the length the
  state file says and the staged indices are in range (`Meetings.Tidy`, which an empty folder has and every
  session keeps). Nothing is assumed of the bytes.
- Serialised messages, chunk bytes and hashes are distinct constructors, so none is read as another.
- Within one pairing the relay is a lossless FIFO in each direction until it dies. A takeover starts a
  new pairing. `Faults` drops this assumption for the sealed transfer.
- In the room, `close()` unlists a socket at once and its close event arrives later, in any order; each
  handler is atomic.
- base58 is a bijection onto strings over its alphabet, and the word list is 256 distinct lower-case words.
- Atomic operations of the close latch interleave sequentially.

## Results worth reading first

- `EndToEnd.UncutSessionDelivers`, `EndToEnd.UncutSessionEnds`, `EndToEnd.UncutSessionCanFinish`, `EndToEnd.KeysAgree`
- `Meetings.MeetingsNeverRepeat`, `Meetings.AnyMeetings`, `Meetings.LastMeetingDelivers`, `Meetings.WrongStagingStays`
- `Verdicts.SenderReports`, `Verdicts.FirstReplyExactly`, `Verdicts.SecondReplyExactly`, `Verdicts.CompleteMeansFinalized`
- `Resume.InterruptedRuns`, `Resume.DeliversExactly`, `Resume.NeverRecovers`, `Resume.Lockstep`, `Faults.AnyChannel`, `Faults.NoncesNeverRepeat`
- `RelayLink.EverySchedule`, `RelayLink.BlockedSendIsFreed`, `Duplex.IdleIsFinished`
- `Store.EveryMomentIsSafe`, `Store.OpenCrashExactly`, `Upload.ManifestExactly`, `Upload.OrderDoesNotMatter`
- `Room.EveryRoom`, `Room.SaidExactly`, `Room.PeerLeftIsTrue`, `Handshake.LogAgreement`, `Handshake.OutcomeExactly`
- `Codec.DebatchExactly`, `Stun.FindsExactly`, `RvCode.ParsesExactly`

Some properties that one might expect hold only under a condition, and are stated with it, in both
directions:

- an uncut session ends with both sides done exactly when every frame of both scripts is within the
  relay's frame limit (`EndToEnd.UncutSessionEnds`, `EndToEnd.DifferentCodesBothFail`), which comes down to
  the manifest and the reply to it (`EndToEnd.GuardDecides`); a longer one is refused before it is queued;
- a resumed transfer delivers exactly when what is staged under its id is the source's
  (`Resume.DeliversExactly`, `EndToEnd.UncutSessionDelivers`, `Meetings.LastMeetingDelivers`). The id is a
  hash of names, sizes and modification times in whole seconds (src/archive.rs:79-90), so a source edited
  between two attempts can keep it (`Resume.EditedBetweenAttempts`). Then the hash of the commit stops the
  hand-over, the staging is kept, and every retry fails the same way (`Resume.NeverRecovers`,
  `Meetings.WrongStagingStays`). It cannot happen as long as nothing else of the same size was offered
  under the id (`Meetings.StagingStaysRight`);
- a chunk write is crash safe exactly when the chunk was not staged or the same bytes are written again
  (`Store.CrashSafeExactly`); the stream path writes only missing chunks, the upload path only the
  sender's own bytes;
- opening a folder for another transfer, or handing over a file, can be cut short with the data gone and the
  state file still naming it; what was staged then recovers exactly when it is the same transfer that is
  opened, or nothing but zeros is staged (`Store.OpenCrashExactly`, `Store.MoveCrashExactly`);
- the upload server answers a chunk or a commit that opens exactly when the manifest it accepted has a
  chunk size above zero (`Upload.AnsweredExactly`); otherwise it divides by zero;
- two runs of the uploader under one code, however far each got, use a nonce for different seals exactly
  when their manifests differ, or a chunk both sent differs, or both committed to different contents
  (`Upload.RepeatedUploadsClash`); re-running one upload only repeats its ciphertexts;
- a URL spelling parses exactly when the host it was given is valid (`RvCode.UrlSpellingParses`); the
  printer does not check;
- the close latch loses no wake-up exactly when the waiter is enabled before the flag is read
  (`CloseLatch.OrderMatters`).

## Model

| member | source | states |
|---|---|---|
| Codec.HeaderRoundTrip | src/transport/relay.rs:58-63 | a piece's four header bytes are its length, least significant byte first, with the top bit as continuation bit, and read back as both |
| Codec.Debatcher.Push | src/transport/relay.rs:83-105 | one payload, any bytes: frames, error and remaining partial buffer are those of `Debatch` |
| Codec.DebatchCapped | src/transport/relay.rs:95-101 | on arbitrary input the partial buffer and every frame stay within the frame limit |
| Codec.DebatchConcat | src/transport/relay.rs:83-105 | pushing p then q is pushing p followed by q, whenever p ends at a piece boundary or overflows |
| Codec.DebatchExactly | src/transport/relay.rs:83-105 | on arbitrary bytes a payload is taken if and only if it is pieces end to end none of which makes a frame longer than the limit, and then it yields the frames those pieces amount to |
| Codec.FrameQueue.PackFrames | src/transport/relay.rs:49-69 | None exactly for an empty queue; payload within the cap; the measure falls; a queue left non-empty means a payload at most four bytes short |
| Codec.PackBounds | src/transport/relay.rs:49-69 | the payload bound, the drain measure and fullness of the packing specification, for every queue and buffer |
| Codec.PackRoundTrip | src/transport/relay.rs:49-105 | decoding one packed payload with any held partial leaves frames, partial and queue that join to what was queued, and never fails |
| RelayLink.RelayChannel.Send | src/transport/relay.rs:353-402 | a frame is queued at the first ack that opens the guard and not before; too long frames are refused; a connection lost while waiting, or found dead when the guard opens, queues nothing |
| RelayLink.IoReader.OnBinary | src/transport/relay.rs:471-491 | one payload: what is delivered, how far the counters move, and whether an ack is due, also when the local consumer goes away in the middle |
| RelayLink.ReaderRefinesMachine | src/transport/relay.rs:471-491 | the reader's one-payload method is the machine's Arrive, hand-overs and Settle, with any reads of the application between the hand-overs |
| RelayLink.HandOversExist | src/transport/relay.rs:476-483 | however full the local channel is, a payload of any number of frames can be handed over |
| RelayLink.GuardExactly | src/transport/relay.rs:378-383 | for any counters, hostile acks included: when a frame may be sent |
| RelayLink.BadPayloadEnds | src/transport/relay.rs:471-475 | in any state a payload ends the connection if and only if it is not pieces end to end within the frame limit; nothing of it is delivered and nothing happens any more |
| RelayLink.StepKeepsInv | src/transport/relay.rs:378-491 | every step keeps flow, counter order and window bound together |
| RelayLink.EverySchedule | src/transport/relay.rs:365-491 | in every reachable state: delivered, in-flight and queued frames are the submitted ones in order, nothing is rejected, counters are ordered, and the bytes in flight are at most max(WINDOW, L + ACK_EVERY - 1), hence within the documented bound |
| RelayLink.FewAcks | src/transport/relay.rs:484-486 | over any schedule the acks sent times ACK_EVERY never exceed the bytes consumed |
| RelayLink.BoundIsAttained | src/transport/relay.rs:378-383 | that bound is exact: for every length L of the largest frame some schedule attains it |
| RelayLink.DrainedMaySend | src/transport/relay.rs:378-401 | once payloads and acks are delivered less than ACK_EVERY is unacknowledged, so the guard holds for any frame size |
| RelayLink.InternalStepLowersWork | src/transport/relay.rs:412-502 | every step but a submission lowers a well-founded measure |
| RelayLink.BlockedSendIsFreed | src/transport/relay.rs:378-401 | from any reachable state finitely many internal steps enable the send of any frame, larger than the window or not |
| Runs.FullIsEverything | src/store.rs:122-124 | have within [0, N): its size is N exactly when it is all of [0, N) |
| Runs.SortedExact | src/store.rs:118-120 | the reported list is strictly ascending and has exactly the members of the set |
| Runs.RunsFromSorted | src/protocol.rs:58-67 | the loop that extends the last run computes `RunsOf` |
| Runs.RunsExact | src/protocol.rs:58-71 | for any strictly ascending list the runs are non-empty, disjoint, non-adjacent, add up to its length, and contain exactly its members |
| Runs.CanonicalUnique | src/protocol.rs:46-71 | two canonical run lists with the same members are equal, so an ack has one spelling |
| Chunks.StartIsProduct | src/store.rs:103-104 | the chunk offset used throughout is index times chunk size |
| Chunks.TotalIsDivCeil | src/protocol.rs:33-35 | the chunk count is the rounded-up quotient |
| Chunks.ChunkBounds | src/stream.rs:81-83 | the sender's, the reader's and the store's length formulas agree, lie in (0, chunk size], and each chunk ends where the next begins or at the end |
| Chunks.ChunksTile | src/send.rs:51-63 | the chunks, joined, are the file |
| Chunks.SpliceElsewhere | src/store.rs:103-105 | writing one chunk leaves every other chunk alone |
| Chunks.SameChunksSameFile | src/store.rs:79-90 | files of one length that agree on every chunk are equal |
| Crypto.FillNonce | src/crypto.rs:55-60 | the buffer filled in place is the nonce of the domain and index |
| Crypto.NonceInjective | src/crypto.rs:55-60 | two nonces are equal exactly when domain and index are |
| Crypto.NonceLayout | src/crypto.rs:55-60 | byte by byte: the domain number, fifteen zeros, the index with its least significant byte first |
| Crypto.OpenExact | src/crypto.rs:62-92 | what was sealed opens exactly under the same key, domain, index and additional data |
| Crypto.OpensExactly | src/crypto.rs:75-92 | any ciphertext whatsoever opens to a plaintext if and only if it is the sealing of that plaintext under the same key, domain, index and additional data |
| Store.StagingStore.constructor | src/store.rs:25-68 | opening resumes matching state and otherwise starts fresh, sets the length and persists, for any sizes; the contents the disk goes through, in order |
| Store.StagingStore.PersistState | src/store.rs:111-116 | the state file becomes the state in memory: the temporary torn, then whole, then renamed, in this order and nothing else |
| Store.StagingStore.Write | src/store.rs:92-109 | range and length checks, then bytes at the offset, the index recorded and persisted; the contents the disk goes through are exactly the crash points of `DiskAt` in order; a refused write changes nothing, and a zero chunk size divides by zero |
| Store.StagingStore.Have | src/store.rs:118-120 | the list is strictly ascending and has exactly the staged indices |
| Store.StagingStore.MoveToDestination | src/store.rs:144-150 | the data becomes the saved file, and only then the staging folder goes away |
| Store.StagingStore.UnpackIntoPlace | src/stream.rs:357-361 | the archive is unpacked, and only then the staging folder goes away |
| Store.OpenExactly | src/store.rs:37-67 | opening field by field: staged indices survive exactly when the state file is about this id, size and chunk size; the data survives if any do, else it is zeros |
| Store.WriteExactly | src/store.rs:92-109 | every answer of a chunk write with its exact condition; a written chunk is there and recorded, every other chunk and field is as before |
| Store.WriteHistoryIs | src/store.rs:103-116 | the effects of a chunk write in order: the data prefix by prefix, then the temporary torn, whole and renamed, so the state never names data that is not there |
| Store.EveryMomentIsSafe | src/store.rs:92-116 | over right staging, everything the disk holds at any moment of writing a right chunk names only chunks that are whole and right |
| Store.OpenKeepsFaithful | src/store.rs:37-67 | opening never inherits another transfer's chunks and keeps all of its own |
| Store.CrashSafe | src/store.rs:92-116 | stopped at any point of writing a chunk's right bytes, the disk names only chunks that are whole and right; the points are those `Write` records |
| Store.CrashSafeExactly | src/store.rs:92-116 | for arbitrary bytes a chunk write is crash safe at every point if and only if the chunk was not staged or the same bytes are written again |
| Store.OpenCrashExactly | src/store.rs:37-67 | opening for any transfer, cut short anywhere: what was staged there recovers at every moment if and only if it is the same transfer or only zeros of it are staged |
| Store.MoveCrashExactly | src/store.rs:144-150 | handing over the file, cut short anywhere: the file is in place from the rename on, and the folder recovers throughout if and only if only zeros are staged |
| Store.UnpackCrash | src/stream.rs:357-361 | unpacking, cut short before or after the removal, loses neither the archive's content nor the staging |
| Store.CompleteIsContent | src/store.rs:122-124 | the count test holds exactly when every index is staged, and then the data file is the content |
| Transfer.SendSource | src/stream.rs:121-190 | the sending loop over a channel cut anywhere: what it sent and where it stands are the step function's, and when it returns it still waited for the last frame it read |
| Transfer.FollowAck | src/stream.rs:134-190 | from the manifest reply to the end of the sender's part |
| Transfer.AwaitCommitAck | src/stream.rs:181-189 | the sender's result is the receiver's answer at reply index 1 |
| Transfer.RecvInto | src/stream.rs:193-336 | the receiving loop over a channel and a store, cut anywhere: replies, disk and result are the step function's, and when it returns it still waited for the last frame it read |
| Transfer.ReceivePayload | src/stream.rs:271-336 | the receiving loop once a payload is accepted, from opening the store to the commit reply |
| Transfer.ReceiveChunks | src/stream.rs:300-314 | the chunk loop waits, in order, for exactly the indices not staged at the start |
| Transfer.FinalizeStore | src/stream.rs:338-362 | completeness, then the hash, then the hand-over by kind; a failure leaves the disk alone |
| Transfer.SentInRange | src/stream.rs:154-170 | the indices sent are ascending and in range for any ack whatsoever |
| Verdicts.SenderReports | src/stream.rs:121-190 | for any frames whatsoever, each result of the sender if and only if its cause: complete and failed exactly for the reply sealed so at index 1 after an accepting one, an error for every other frame there |
| Verdicts.SenderSends | src/stream.rs:130-180 | for any frames whatsoever: the manifest, and after an accepting ack exactly the chunks it does not report, ascending, and the commit |
| Verdicts.AtNoManifest | src/stream.rs:203-204 | a first frame that is no manifest ends the receiver with no reply and the disk as it was |
| Verdicts.AtRefused | src/stream.rs:205-255 | a manifest of another version, of another frame size unless a text, or declined, in this order, is answered with the refusal and changes nothing |
| Verdicts.AtText | src/stream.rs:256-269 | an accepted text is delivered, answered with acceptance, and changes nothing |
| Verdicts.AtPayload | src/stream.rs:271-305 | an accepted payload opens the store; the reply names exactly the staged indices, in canonical runs, and complete exactly when their count is the total; the first missing index is awaited |
| Verdicts.AtChunk | src/stream.rs:306-313 | each frame where a chunk is due: sealed at its index and of its length it is written and the next missing one awaited; of another length, or not sealed so, the run ends with its own error and nothing changes |
| Verdicts.AtCommit | src/stream.rs:316-362 | each frame where the commit is due: the verdict by count and hash, the reply that says it, the whole disk afterwards; without a commit there is no reply and no change |
| Verdicts.FirstReplyExactly | src/stream.rs:202-292 | for any frames: a first reply exists if and only if the first frame is a manifest, it accepts if and only if version, frame size and user do, and otherwise it is the refusal and disk and writes are untouched |
| Verdicts.SecondReplyExactly | src/stream.rs:316-335 | for any frames: a second reply exists if and only if a commit was judged, and says ok exactly when the file was handed over; there is no third |
| Verdicts.JudgedExactly | src/stream.rs:316-335 | a commit is judged if and only if some frame arrived, while the commit was due, that is sealed as a commit at its index |
| Verdicts.CompleteMeansFinalized | src/stream.rs:181-189 | with nothing but what the receiver sealed, or forgeries, arriving, a sender that reports success talks to a receiver that handed the file over |
| Resume.SkipsExactly | src/stream.rs:158-163 | the sender skips chunk i exactly when the receiver has it |
| Resume.Lockstep | src/stream.rs:154-170 | the indices the sender transmits, read off the run-length ack, are in order the indices the receiver waits for, read off its set |
| Resume.SkippedPlusSent | src/stream.rs:154-170 | for any acknowledgement, the bytes the sender skips and the bytes of the chunks it sends total the file size |
| Resume.MissingExact | src/stream.rs:300-305 | those indices are ascending and exactly the ones in range that are not staged |
| Resume.TransmissionShape | src/stream.rs:130-180 | over any staging of the right shape a transmission is the manifest, one frame for each missing chunk in order, and the commit; N - have + 2 frames |
| Resume.HonestStep | src/stream.rs:202-335 | over any staging of the right shape every frame of an honest transmission opens at the nonce it was sealed with and moves the receiver to the expected stage |
| Resume.HonestRun | src/stream.rs:193-336 | the receiver's replies, disk, recorded writes and verdict after any prefix of an honest transmission |
| Resume.HonestSender | src/stream.rs:121-190 | the sender's output after each of the receiver's honest replies |
| Resume.SessionKeeps | src/stream.rs:300-314 | one session cut after any frame, or crashed inside any chunk write, stages exactly the chunks it completed, none of them staged before; the completed ones are the recorded writes; staging stays as right or as wrong as it was |
| Resume.InterruptedRuns | src/stream.rs:271-314 | over any sequence of cut and crashed sessions staging is right afterwards exactly when it was before, exactly the logged chunks were added, and no chunk is completed twice |
| Resume.FirstUncutSession | src/stream.rs:121-190 | after any such sequence the first uncut session sends 2 + (N - have) frames, and both sides succeed with the source handed over if and only if the staging was right at the start |
| Resume.DeliversExactly | src/stream.rs:193-362 | one uncut session delivers the source if and only if what is staged under the id is the source's; else both sides report the hash mismatch, nothing comes out, and everything stays staged, still wrong |
| Resume.NeverRecovers | src/stream.rs:274-280 | over wrong staging every retry, any number of times, fails on the hash, all but the first with two frames |
| Resume.EditedBetweenAttempts | src/archive.rs:79-90 | the failing input: an attempt cut after one chunk, then a first chunk that differs under the same id and size |
| Resume.ManifestEnds | src/stream.rs:134-141 | a refused transfer and a text end at the manifest on both sides, the text arrives as sent, and the disk is not touched |
| Faults.OpenedIsSealed | src/crypto.rs:75-92 | what opens at an index of the receiver's direction is what the sender sealed there |
| Faults.AnyChannel | src/stream.rs:193-350 | fed any frames that can exist, dropped, repeated, reordered, echoed or forged, the receiver writes at each index only the sender's chunk and hands over only what the sender hashed |
| Faults.AnyChannelText | src/stream.rs:202-269 | on any channel a receiver of a text ends up with the sender's text or none, and never touches the disk |
| Faults.SenderSeals | src/stream.rs:131-180 | the sender seals at strictly ascending indices whatever it is told, skipped chunks included |
| Faults.ReceiverSeals | src/stream.rs:205-334 | the receiver seals at most its two replies, at indices 0 and 1 |
| Faults.OneAttemptFresh | src/stream.rs:120-336 | within one session, both directions and any input, no nonce is used for two seals |
| Faults.NoncesNeverRepeat | src/pake.rs:20-30 | across any number of sessions with pairwise different keys no pair of key and nonce is used twice |
| Handshake.FrameRoundTrip | src/handshake.rs:37-50 | an encoded frame decodes to its kind, role and payload |
| Handshake.FrameExactly | src/handshake.rs:45-50 | any byte string decodes to a kind, role and payload if and only if it is those two bytes followed by that payload; shorter ones do not decode |
| Handshake.RecvKind | src/handshake.rs:190-199 | reads until the first frame of the wanted kind from the peer's role, and no further |
| Handshake.HandshakeOverChannel | src/handshake.rs:168-186 | the exchange over a channel cut anywhere: what was sent, what was read, and the outcome are the machine's |
| Handshake.InOrder | src/handshake.rs:168-199 | reading the peer's frames in order: key after the first, verdict after the second, success exactly with the same code |
| Handshake.OutcomeExactly | src/handshake.rs:168-199 | for any frames whatsoever: nothing before the peer's SPAKE2 message; an invalid one fails the exchange with no confirmation sent; after a valid one the first confirmation decides, and a key is returned exactly if it carries the peer's MAC |
| Handshake.CleanRun | src/handshake.rs:120-133 | over echoes, duplicates and unrelated frames the selected frames, and so the outcome, are those of the peer alone |
| Handshake.LogAgreement | src/handshake.rs:86-133 | in every reachable state of a shared log each party is waiting or has the channel version's verdict; keys agree; different codes give no key |
| Handshake.LogNotStuck | src/handshake.rs:86-133 | when neither party can move both have their verdict |
| Handshake.OwnStepLowers | src/handshake.rs:86-133 | every enabled step of a party lowers by one what is left to publish and read; a replay or noise adds two |
| Handshake.LogCanFinish | src/handshake.rs:86-133 | from every reachable state of a log, within as many steps of their own, both parties come to a stop, and so to their verdict |
| Duplex.AlwaysOnScript | src/transport/relay.rs:352-502 | two endpoints over two links, any schedule: each has read a prefix of what the other was to say, and neither direction breaks |
| Duplex.StoppedTasks | src/transport/relay.rs:427-501 | when nothing can move, neither io task is stuck handing frames to a full local channel |
| Duplex.IdleIsFinished | src/transport/relay.rs:352-502 | no deadlock: when nothing can move, everything either side had to say has been said and read |
| Duplex.WorldStepLowers | src/transport/relay.rs:412-502 | every step of the two endpoints and io tasks lowers one well-founded measure |
| Duplex.RunsOut | src/transport/relay.rs:412-502 | from any state of a session there is a schedule to its end |
| EndToEnd.SenderHandshake | src/handshake.rs:168-199 | alignment: the sender's handshake takes exactly the peer's first two frames, and the stream starts at the third |
| EndToEnd.ReceiverHandshake | src/handshake.rs:168-199 | alignment for the receiver |
| EndToEnd.SenderPlays | src/session.rs:154-173 | the sender's endpoint, against an honest receiver, says exactly its script, whatever the codes, source and verdict |
| EndToEnd.ReceiverPlays | src/session.rs:109-151 | the receiver's endpoint, against an honest sender, says exactly its script, whatever the codes, source and verdict |
| EndToEnd.NeverSwamped | src/session.rs:109-173 | the sender never runs so far ahead that the receiver's io task is full while it has yet to speak |
| EndToEnd.KeysAgree | src/session.rs:135-170 | any schedule, any cut: a side has a key exactly when codes agree and it has read two frames, and it is the common key |
| EndToEnd.AnyScheduleAnyCut | src/session.rs:109-173 | any schedule stopped anywhere, any source and receiver: the disk is what some prefix of the stream leaves, staging as right as before, and only right staging comes out; a wrong code, a text and a refusal leave it untouched |
| EndToEnd.UncutSessionEnds | src/session.rs:109-173 | once nothing can move, both sides are done, with the results that codes, source, receiver and staging call for, if and only if every frame of both scripts fits the relay |
| EndToEnd.UncutSessionDelivers | src/session.rs:109-173 | a stopped payload session over any staging of the right shape: both sides report success, with the source handed over, if and only if every frame fits and the staging is right; if it is wrong both report the mismatch and nothing comes out |
| EndToEnd.GuardDecides | src/transport/relay.rs:357-364 | when the frames of bounded size fit, all frames fit if and only if the manifest and the reply to it pass the sender's guard |
| EndToEnd.SuccessMeansFit | src/transport/relay.rs:353-364 | under any schedule, a sender that is done proves that every frame was within the limit |
| EndToEnd.ShortSessionEnds | src/session.rs:109-173 | a stopped session with a text or a refusal: one key, three frames sent, both sides know, and the disk is as it was |
| EndToEnd.DifferentCodesBothFail | src/handshake.rs:168-186 | with different codes, whatever was to be sent, once nothing can move both sides have reported the mismatch if and only if their handshake frames fit |
| EndToEnd.UncutSessionCanFinish | src/session.rs:109-173 | every session that was not cut can be run to its end |
| Meetings.MeetingIsSession | src/session.rs:109-173 | an agreeing meeting over the relay that does not deliver, cut anywhere or crashed inside a chunk write, is an interrupted session |
| Meetings.MeetingsNeverRepeat | src/session.rs:109-173 | over any such meetings on one source staging is as right as it was, exactly the logged chunks were added, and no chunk write was completed twice |
| Meetings.OneMeeting | src/stream.rs:271-336 | one meeting leaves staging as right or as wrong about its source as before, is otherwise about that source or gone, and outputs the source only over right staging |
| Meetings.AnyMeetings | src/session.rs:109-173 | any number of meetings on any sources, whatever ids they use: the disk keeps its shape and only what was offered comes out |
| Meetings.StagingStaysRight | src/store.rs:37-49 | as long as nothing else of its size was offered under a source's id, its staging stays right |
| Meetings.WrongStagingStays | src/store.rs:37-49 | wrong staging stays wrong over any further meetings on the source, and nothing comes out |
| Meetings.LastMeetingDelivers | src/session.rs:109-173 | from an empty folder and whatever meetings came before, a last one that is not cut succeeds if and only if its frames fit and what is staged under its id is its own, as it is when nothing else was offered there |
| Meetings.NoncesNeverRepeatOverMeetings | src/pake.rs:20-68 | when no two handshakes drew the same two SPAKE2 messages, no pair of key and nonce is used twice over any attempts |
| Upload.Server.HandleManifest | src/server.rs:142-248 | refusals change nothing; an accepted manifest, of any chunk size, opens the store, replaces the active transfer and reports what is staged |
| Upload.Server.HandleChunk | src/server.rs:250-273 | a chunk that opens under its index is written; anything else is refused without effect; a zero chunk size gives no answer |
| Upload.Server.HandleCommit | src/server.rs:286-354 | an unreadable commit restores the transfer; a readable one ends it, whatever the verdict, and unanswered when the chunk size is zero |
| Upload.ManifestExactly | src/server.rs:142-248 | for any body: no manifest is a bad request; another version or a declined one is refused and changes nothing; a text is accepted as complete and changes nothing; only an accepted payload opens the store and becomes the active transfer, with exactly what is staged reported |
| Upload.ChunkExactly | src/server.rs:250-273 | for any body: each answer with its exact condition; the disk changes only for an answer that says stored |
| Upload.UnreadableCommit | src/server.rs:286-304 | a commit that does not open is refused and leaves the transfer active; without a transfer any commit is a conflict |
| Upload.AnsweredExactly | src/store.rs:79-81 | a chunk or commit that opens is answered if and only if the active chunk size is above zero; unanswered, the chunk changes nothing and the commit loses the transfer but not the disk |
| Upload.PutsExact | src/server.rs:250-273 | any sequence of chunk uploads: have and data are the old ones plus exactly what landed |
| Upload.OrderDoesNotMatter | src/server.rs:250-273 | two sequences that land the same new chunks, in any order and with any repeats, reach the same state |
| Upload.AnyOrderIsInOrder | src/send.rs:274-298 | any interleaving that lands all missing chunks reaches the state of uploading them in order |
| Upload.CommitExactly | src/server.rs:286-335 | each verdict of a commit that opens, with its exact condition; success exactly when every chunk is present and the hash matches, and only then the data moves, with the whole disk stated |
| Upload.UploadCommits | src/send.rs:274-326 | after any uploads the sender's commit succeeds exactly when all chunks are staged, and then the saved file or unpacked archive is the content |
| Upload.FailedCommitResumes | src/server.rs:286-335 | a failed commit keeps what is staged, and posting the manifest again brings the same transfer back; with nothing staged the file is blanked |
| Upload.RepeatedUploadsClash | src/send.rs:214-326 | two runs of the uploader under one code, however far each got, use a nonce for different seals if and only if manifests, a chunk both sent, or both commits differ |
| Upload.UploadWithRetry | src/send.rs:331-370 | stops at the first success or rejection, at most five attempts, 500 ms doubling between them |
| Room.RoomObject.Fetch | relay-worker/src/index.js:31-57 | a bad request changes nothing; a join closes the role's old sockets, lists the new one, and pairs it or arms the alarm |
| Room.RoomObject.CloseRole | relay-worker/src/index.js:40-42 | takeover: afterwards exactly the sockets of the opposite role are listed |
| Room.RoomObject.WebSocketMessage | relay-worker/src/index.js:64-67 | a message goes to the holder of the opposite role, if any |
| Room.RoomObject.Departed | relay-worker/src/index.js:77-89 | a departure tells the survivor only when nobody else holds the role, and re-arms the alarm |
| Room.RoomObject.Alarm | relay-worker/src/index.js:91-93 | the alarm closes everything listed and is no longer set |
| Room.StepKeeps | relay-worker/src/index.js:31-93 | every event keeps: one socket a role, every listed socket told the truth, alarm armed exactly when one waits alone |
| Room.EveryRoom | relay-worker/src/index.js:31-93 | so in every reachable room |
| Room.SaidExactly | relay-worker/src/index.js:31-93 | in every reachable room, for every event and socket: exactly what is said to that socket, and nothing to anybody else |
| Room.ListedExactly | relay-worker/src/index.js:31-93 | and exactly who is listed and whether the alarm is set; a fired alarm leaves nobody |
| Room.HolderStays | relay-worker/src/index.js:77-81 | a late close event of a replaced socket tells nobody anything and changes nothing |
| Room.PeerLeftIsTrue | relay-worker/src/index.js:77-89 | whenever `peer-left` is sent the opposite role is empty and the alarm is armed; takeovers never send one |
| Room.AlarmSparesPairs | relay-worker/src/index.js:91-93 | when the alarm can fire at most one socket is listed |
| Room.ForwardedToPeer | relay-worker/src/index.js:64-67 | in every reachable room a message reaches, unchanged, the one socket of the opposite role and nobody else |
| Stun.ParseXorMappedAddress | src/stun.rs:48-91 | the loop terminates, reads in range for arbitrary bytes, and returns what the walk defines |
| Stun.Unmask | src/stun.rs:75-81 | the sixteen octets unmasked in place |
| Stun.XorBit | src/stun.rs:63-81 | the mask is exclusive or: a bit of the result is set if and only if the two bits differ |
| Stun.BitIsDigit | src/stun.rs:63-81 | a bit is the binary digit of the quotient by a power of two |
| Stun.UnmaskedExactly | src/stun.rs:63-81 | a number is what unmasking yields if and only if, bit by bit, it differs from the masked one where the mask is set |
| Stun.EncodingExists | src/stun.rs:59-87 | every address has an encoding in the sense of section 15.2 of RFC 5389 |
| Stun.FindsExactly | src/stun.rs:48-91 | an address is returned if and only if the response has the cookie, echoes the transaction, and its first attribute not skipped carries that address, bit by bit masked with cookie and transaction, whole |
| Stun.AnswerIsUnderstood | src/stun.rs:48-91 | any padded attributes of other types, an address encoded by its bits, the cookie and the transaction, any tail: the client reads back that address (section 15 of RFC 5389) |
| Stun.RequestMatchesItself | src/stun.rs:14-25 | a request matches its own transaction and no other |
| RvCode.IndexOfExact | src/words.rs:268-270 | the word lookup inverts the word list |
| RvCode.TrimExactly | src/rvcode.rs:56-57 | trimming takes white space off both ends and nothing else, for any text |
| RvCode.ByteTexts | src/rvcode.rs:106-108 | a text denotes a channel byte if and only if it is its decimal form after an optional plus sign and any zeros |
| RvCode.CharactersExactly | src/rvcode.rs:64-70 | which characters a host may hold, and which base58 has, one by one |
| RvCode.UrlSpellingParses | src/rvcode.rs:149-156 | a URL spelling parses to the same topic, secret and host if and only if the host is absent or valid; else it is refused |
| RvCode.HumanTextParses | src/rvcode.rs:101-120 | a human code parses for every channel text that denotes its channel byte |
| RvCode.PrintedParses | src/rvcode.rs:159-187 | every code, printed, parses back to itself |
| RvCode.ParsesExactly | src/rvcode.rs:56-120 | a text parses to a code if and only if, trimmed, it is the code's printed form, up to plus sign and leading zeros of a human channel |
| RvCode.RecognisedExactly | src/rvcode.rs:43-54 | the classifier accepts exactly what parses, and every text with the URL scheme |
| CloseLatch.LatchRun | src/transport/webrtc.rs:84-99 | every interleaving keeps: a parked send whose flag is set was woken or will be |
| CloseLatch.NoLostWakeUp | src/transport/webrtc.rs:84-101 | once the flag is stored and no step is left, no send is still waiting |
| CloseLatch.OnlyClosedSendsFail | src/transport/webrtc.rs:84-101 | over every interleaving a send fails only on a closed channel, and one the channel takes has not failed |
| CloseLatch.ClosedSendFails | src/transport/webrtc.rs:84-101 | then a send ends with an error after a bounded number of steps, even if the channel never accepts another byte |
| CloseLatch.OrderMatters | src/transport/webrtc.rs:84-89 | no wake-up is lost if and only if the waiter is enabled before the flag is read |

## Left out

- Sockets, TLS, HTTP clients, DNS, cloudflared, the ntfy client, configuration and the command line.
- The internals of XChaCha20-Poly1305, BLAKE3, SPAKE2, base58, JSON and tar: used through the assumptions above.
- Timers: the ping, the handshake limit, the progress watchdog and upload timeouts. A timeout is a session
  that ends, which every cut already covers.
- Upload.UploadWithRetry: how each of the five attempts would end is a parameter, so the request itself is not modelled.
- RelayLink.EverySchedule: the window counts frame bytes, as the program does; the four-byte headers on the wire
  are not in the bound. After `closing` is set the io task flushes and ends (src/transport/relay.rs:438-441); the
  machine stops there.
- Store.CrashSafe: covers a crash inside a chunk write; opening and the hand-over are `Store.OpenCrashExactly`,
  `Store.MoveCrashExactly` and `Store.UnpackCrash`. The cuts of `Meetings` and `EndToEnd` fall between frames or inside
  a chunk write.
- Store.UnpackCrash: unpacking and removing a folder are one effect each; a folder half removed is not modelled.
- Meetings.MeetingsNeverRepeat: about meetings before delivery. Once a transfer is delivered its staging is gone, and
  offering it again sends every chunk again.
- EndToEnd.ShortSessionEnds: the io task of the model outlives its endpoint. In the program the receiver returns an
  error without closing the channel (src/session.rs:145) and the process exits (src/main.rs:170-176), so a refusal may
  never be flushed; the sender then sees a lost connection.
- EndToEnd.DifferentCodesBothFail: likewise the last confirmation of a side that has seen the mismatch may be lost with
  its process.
- A source file that changes while it is sent: the content is fixed within a session.
- I/O errors of the disk, file names (`safe_name`), manifest entries, prompts and progress bars.
- 64-bit overflow of byte counters and of run-length arithmetic on hostile acks: counters are unbounded.
- The upload server's terminal events (a received text among them), its shutdown after a transfer, and the 503 when nobody
  is left to ask (src/server.rs:183-197).
- The bearer-token check and its failure counter, and the status endpoint of the upload server (src/server.rs:111-133, src/server.rs:275-284).
- The Worker never answers 409: a second join takes the role over. The client still knows a busy-room answer
  (src/transport/relay.rs:222-235), which other relays may give; the model follows the Worker.
- The Worker's routing and token check (relay-worker/src/index.js:7-19); rooms are independent objects.
- The WebRTC engine and the buffer of early ICE candidates (src/transport/webrtc.rs:343-386): a queue flushed in order.
- `doctor`, `tlsprobe`, `classify_error_text`, `resolve_relay`, `classify_mapping`: decision tables settled by their branches.
- The random generators of codes and secrets: any code of the right shape is covered.
