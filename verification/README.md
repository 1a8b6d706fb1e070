# FreeAgent transport models

Dafny models of the four stateful parts of FreeAgent that carry messages and
own executions, with proofs of what they promise over all inputs and all runs.

- **Lark frames** (`Varint`, `Wire`, `KeyOrder`, `LarkFrame`, `Decimal`,
  `LarkAssembler`, `LarkReassembly`, `LarkProvenance`, `LarkIsolation`, `LarkNames`): the hand-written codec
  of the websocket frame, following the "Base 128 Varints", "Message Structure"
  and "Last One Wins" parts of the Protocol Buffers Encoding specification, and
  the bounded reassembly of payloads that arrive in several frames.
- **The Owner** (`Events`, `EventHub`, `HubRuns`, `StreamLife`, `Owner`, `OwnerRuns`, `OwnerCalls`,
  `Snapshot`, `SnapshotRuns`): the event log with its cursor, the live model text, the
  server-sent-event listeners, admission and release of executions, handoff,
  idle and database-loss shutdown, `Close`, and the chat snapshot.
- **The Telegram pull loop** (`TelegramPull`, `TelegramRuns`,
  `TelegramPlugin`): a persisted cursor, acceptance by Core with lost answers,
  a purge that must not be repeated, and a crash between any two steps.
- **Bounded text and reply windows** (`Utf8`, `Utf16`, `TelegramText`, `QQWindows`).

Conventions. Go strings and byte slices are sequences of bytes. Every critical
section of a mutex is one atomic step: a class method over the fields, whose
contract equates the new fields with a function of the old ones; the `*Runs`
modules prove invariants of that function over every sequence of steps. Calls
whose code belongs to other parts (`CloseCommands`, `HasCommands`,
`KeepOwnerAlive`, the chat read, the disk, the platform, Core) are arguments
that may take any value. Clocks are integers in nanoseconds. Fields that only
observe (histories, threads) are ghost or named as observing where they are
declared.

Properties that hold only under a condition come with the exact condition, and
with the case that fails where one has to be built:

- A decoded frame survives being sent again exactly when its headers and total still fit (`DecodedCanBeResentExactly`, `ResendCanFail`).
- A poll expires exactly when its next event was evicted, or when it gives the largest 64-bit cursor and anything is logged (`PollIsExact`).
- Admission stays closed after the process was told to stop exactly in the runs where `CloseCommands` does not fail after that (`SealedThroughoutExactly`, `ReservedAfterStop`).
- Equal state numbers mean that only text was recorded exactly within a generation; across one they mean that both generations last changed at the same number (`SameStateExactly`, `ResetCanHideEvents`).
- A stable snapshot can hide a whole execution of its conversation exactly when that conversation is free at its first section and the server neither closed nor stopping beyond recall; within a generation every execution hidden is still due its notice (`HidesExecutionExactly`, `StableHidesOnlyDue`).
- A rejected fragment discards what its own message had collected exactly when it fills a missing part and would push the message over 1 MiB (`RejectedLeavesEntry`, `OverflowDiscards`).
- A client that advances by next_seq and names a generation misses nothing as long as that generation is not set again (`PollerGetsHistory`); if it is, or if the client names none, it can (`SetAgainMisleads`).
- A reply number is issued twice for one QQ message exactly when two windows opened for it, necessarily more than 120 s apart, both issued that many replies (`IssuedTwiceExactly`, `ReceivedAgain`).
- A listener's frames carry the recorded text exactly while no piece of it is too long for a frame (`FramesReplayExactly`, `SnapshotPlusFrames`).

## Model

| member | source | states |
|---|---|---|
| Varint.DecodeEncode | internal/channels/lark_frame.go:21-29 | A written 64-bit varint is read back with its exact value and width, whatever bytes follow |
| Varint.EncodeIsBase128 | internal/channels/lark_frame.go:21-29 | What is written are groups of seven bits, least significant first, the top bit set on all but the last, and no more than needed |
| Varint.DecodedIsU64 | internal/channels/lark_frame.go:53-70 | No accepted varint exceeds 64 bits or ten bytes |
| Varint.CanonicalExactly | internal/channels/lark_frame.go:53-68 | Overlong varints are accepted; what was read is the writer's own form exactly when it is one byte or its last byte is not zero |
| Wire.ReadRecord | internal/channels/lark_frame.go:53-87 | One field is taken from the front: at least one byte and never more than there is |
| Wire.MalformedExactly | internal/channels/lark_frame.go:53-87 | After a readable tag each error is given exactly for its own malformation, whatever form the tag was written in |
| Wire.UnreadableTag | internal/channels/lark_frame.go:53-57 | A tag is refused exactly when it cannot be read or its field number is zero |
| Wire.ReadLoop | internal/channels/lark_frame.go:51-93 | The loop over the shrinking input gives the callback's final state and the first error, as the recursive reader does |
| Wire.ReadWireVar | internal/channels/lark_frame.go:21-24 | A written number field is read as that field with that number |
| Wire.ReadWireBytes | internal/channels/lark_frame.go:25-29 | A written bytes field is read as that field with those bytes |
| Wire.ReadFixed | internal/channels/lark_frame.go:75-84 | Fixed-width fields are skipped by exactly eight or four bytes and carry nothing |
| Wire.ReadConcat | internal/channels/lark_frame.go:51-93 | Reading a concatenation continues with the second part from the state the first part left |
| Wire.ReadIsFold | internal/channels/lark_frame.go:51-93 | The callback runs once per record, in order, and stops at its own first error or else at the first malformed field |
| Wire.RecordsConcat | internal/channels/lark_frame.go:51-93 | The records of a concatenation are the records of its parts |
| KeyOrder.Sort | internal/channels/lark_frame.go:40 | Sorting gives an ascending list of the same keys |
| KeyOrder.LessExactly | internal/channels/lark_frame.go:40 | A key comes first exactly when it is a proper prefix or has the smaller byte at the first difference |
| KeyOrder.SortedIsUnique | internal/channels/lark_frame.go:36-40 | A set of keys has only one ascending list, so map order cannot show |
| KeyOrder.CollectKeys | internal/channels/lark_frame.go:36-40 | Whatever order the map yields its keys in, the sorted list is the same |
| LarkFrame.WriteHeaders | internal/channels/lark_frame.go:41-45 | The loop writes one header field per key, in the order given |
| LarkFrame.Marshal | internal/channels/lark_frame.go:30-50 | The bytes written are a function of the frame's value alone |
| LarkFrame.WrittenRecords | internal/channels/lark_frame.go:30-50 | The bytes written read as exactly the nine numbered fields, empty ones included, with each header as key in part 1 and value in part 2 |
| LarkFrame.DecodeLarkFrame | internal/channels/lark_frame.go:94-145 | The decoder's frame and error for every input, limits and encoding check included |
| LarkFrame.DecodedErrors | internal/channels/lark_frame.go:94-145 | Which error wins: size, then the encoding even when a later field is malformed, then the first refused record, then the first malformed one |
| LarkFrame.HeaderExactly | internal/channels/lark_frame.go:111-130 | A header is refused when 64 are there or it exceeds 4096 bytes, refused as repeated when its key is there, and otherwise added |
| LarkFrame.RoundTrip | internal/channels/lark_frame.go:30-145 | Decoding an encoded frame succeeds exactly when encoding, header count, header size and total size are within limits, and then returns the frame |
| LarkFrame.RefusedExactly | internal/channels/lark_frame.go:30-145 | An encoded frame is refused exactly when it exceeds 1 MiB, has an encoding other than "" and "json", more than 64 headers or one of more than 4096 bytes |
| LarkFrame.MarshalInjective | internal/channels/lark_frame.go:30-50 | No other frame has the encoding of a frame that fits |
| LarkFrame.DecodedCanBeResentExactly | internal/channels/lark_frame.go:30-145 | A decoded frame survives re-encoding exactly when its own headers and total still fit |
| LarkFrame.ResendCanFail | internal/channels/lark_frame.go:41-45 | Some accepted message decodes to a frame whose encoding is refused |
| LarkFrame.LastWins | internal/channels/lark_frame.go:99-140 | Every field but the headers is what the last record with its number says |
| LarkFrame.DecodedIsLastWins | internal/channels/lark_frame.go:94-145 | The same of the decoder on raw bytes |
| LarkFrame.UnknownFieldsIgnored | internal/channels/lark_frame.go:100-139 | Fields numbered ten or more can be inserted between records without changing frame or error |
| Decimal.AtoiItoa | internal/channels/lark_frame.go:162-173 | Atoi undoes the decimal printer with either sign, exactly within the 64-bit range |
| Decimal.DigitsExactly | internal/channels/lark_frame.go:162-173 | A number is digits and nothing else |
| Decimal.DigitsConcat | internal/channels/lark_frame.go:162-173 | Numbers are read with the most significant digit first |
| Decimal.ParseUintItoa | internal/chatui/attach.go:390-397 | The cursor parser undoes the decimal printer exactly on 64-bit numbers and takes no sign |
| LarkAssembler.ClassifyExactly | internal/channels/lark_frame.go:162-177 | A frame is whole exactly when its count says one, a fragment exactly when count is 2 to 64, index below it and id valid, and refused for its count exactly when that is no number from 1 to 64 |
| LarkNames.ValidIdExactly | internal/channels/app_api.go:101-111 | An id is 1 to 256 letters, digits, underscores, hyphens, colons and dots |
| LarkNames.WholeFrame | internal/channels/lark_frame.go:162-172 | A frame without "sum", or with "" or "1", is answered whole at once |
| LarkNames.RefusedFrame | internal/channels/lark_frame.go:162-177 | A printed count outside 1 to 64, an index not below the count or an invalid id is refused with its own reason and changes nothing |
| LarkNames.FirstFragment | internal/channels/lark_frame.go:173-206 | A frame whose headers "sum", "seq" and "message_id" say so is kept as that part of a new entry while fewer than 16 messages are open, and refused otherwise |
| LarkNames.NextFragment | internal/channels/lark_frame.go:192-217 | The outcome of a further fragment of an open message, in each of its five cases |
| LarkAssembler.LarkAssembler.DropExpired | internal/channels/lark_frame.go:178-183 | Exactly the entries older than five seconds go |
| LarkAssembler.LarkAssembler.Fill | internal/channels/lark_frame.go:192-213 | The checks, the size count and the completion of one entry |
| LarkAssembler.LarkAssembler.Finish | internal/channels/lark_frame.go:207-215 | Complete exactly when no part is missing, and then their concatenation |
| LarkAssembler.LarkAssembler.Place | internal/channels/lark_frame.go:184-217 | The whole map after a fragment, in every outcome |
| LarkAssembler.LarkAssembler.Add | internal/channels/lark_frame.go:161-218 | Result and whole map after any Add |
| LarkAssembler.AddedBounded | internal/channels/lark_frame.go:161-218 | Every Add, error returns included, keeps at most 16 entries, each of 2 to 64 parts, some present and some missing, with size the sum of the present parts and at most 1 MiB |
| LarkAssembler.AlwaysBounded | internal/channels/lark_frame.go:158-218 | Those bounds hold after any sequence of Adds |
| LarkAssembler.NeverMoreThanSixteenMiB | internal/channels/lark_frame.go:185-206 | Unfinished messages never hold more than 16 MiB together |
| LarkReassembly.HeadersMakePiece | internal/channels/lark_frame.go:162-177 | Printed count and index with a valid id make a frame the piece meant |
| LarkReassembly.FramedPieces | internal/channels/lark_frame.go:30-50 | A payload cut into 2 to 64 pieces becomes frames of one message |
| LarkReassembly.OwnMessage | internal/channels/lark_frame.go:184-217 | A further piece completes the payload exactly when it was the last missing one |
| LarkReassembly.ForeignMessage | internal/channels/lark_frame.go:178-217 | No message that is not a fragment of an id touches its live entry |
| LarkReassembly.ContradictingMessage | internal/channels/lark_frame.go:192-198 | A fragment with another count or service, or other bytes for a part already there, is rejected and leaves its message's entry as it was |
| LarkReassembly.EncodedBrings | internal/channels/lark_frame.go:30-145 | A piece written by Marshal within the limits is a message that brings it |
| LarkReassembly.Reassembly | internal/channels/lark_frame.go:94-218 | Messages that decode to the pieces, in whatever encoding, in any order with repeats and among any other traffic and contradicting fragments give exactly one complete payload, on the last missing piece, equal to the original |
| LarkNames.JoinUndoesCutting | internal/channels/lark_frame.go:212-217 | The pieces a payload is cut into join to it again |
| LarkNames.NamedReassembly | internal/channels/lark_frame.go:30-218 | A payload cut into 2 to 64 parts, framed with the literal header names, sent in any order with repeats to a new assembler, comes back as it was on the last missing part and not before |
| LarkProvenance.AddedSourced | internal/channels/lark_frame.go:184-217 | One Add keeps every stored part traceable to an accepted fragment of its own message since the entry was opened |
| LarkProvenance.CompletedFromFragments | internal/channels/lark_frame.go:173-217 | A multi-part payload consists only of fragments with one id, one service and one count, each accepted at most five seconds ago |
| LarkIsolation.Isolation | internal/channels/lark_frame.go:173-217 | Over any run, replaying a message's own accepted (or overflowing) fragments alone answers each of them as before and leaves the same entry: neither rejected Adds nor other messages change what it yields |
| LarkProvenance.RejectedLeavesEntry | internal/channels/lark_frame.go:192-206 | A live entry is discarded by a rejected Add exactly when the fragment is its own, agrees in count and service, fills a missing part and makes the size exceed 1 MiB; otherwise a rejected Add leaves it as it was |
| LarkProvenance.OverflowDiscards | internal/channels/lark_frame.go:199-204 | Two fragments that are too long together: the first is kept until the second discards it |
| Events.RunningText | internal/chatui/server.go:164-195 | While an attempt runs, its text grows by exactly its own events until truncated, and truncated means some text is missing |
| Events.StreamIsWholeText | internal/chatui/server.go:168-189 | From model_started, the stream is all the text exactly while not truncated |
| Events.StreamsStayBounded | internal/chatui/server.go:183-189 | No stream exceeds 1 MiB, in any order of events |
| StreamLife.FinishedIsGone | internal/chatui/server.go:190-191 | A finished attempt has no stream until it is started, written to or interrupted again |
| StreamLife.FinishedNotShown | internal/chatui/server.go:164-196 | The same in a server, over any actions |
| StreamLife.InterruptedKeepsText | internal/chatui/server.go:192-194 | An interruption keeps the text and marks it |
| StreamLife.StartedExactly | internal/chatui/server.go:168-182 | Exactly which streams are left after a start, and the new one is empty |
| StreamLife.TextExactly | internal/chatui/server.go:183-189 | Text is appended exactly while the stream stays within 1 MiB |
| StreamLife.TruncatedExactly | internal/chatui/server.go:183-189 | A running stream is truncated exactly when all its text together exceeds 1 MiB |
| StreamLife.OthersUntouched | internal/chatui/server.go:164-196 | Events with a purpose, without an attempt or of other kinds change no stream, and none but a start changes another attempt's |
| EventHub.Server.OnEvent | internal/chatui/server.go:151-202 | All fields after an event: numbers, log, streams, listeners and channels |
| StreamLife.RecordedAsItCame | internal/chatui/server.go:154-160 | An event is recorded as it came but for its number and generation |
| StreamLife.SentAsRecorded | internal/chatui/server.go:197-201 | Listeners get it as recorded, or above 64 KiB a refresh without message |
| EventHub.Server.UpdateStreams | internal/chatui/server.go:164-196 | The streams after each kind of event |
| EventHub.Server.DropRun | internal/chatui/server.go:170-174 | Starting an attempt drops exactly the streams of its run |
| EventHub.Server.DropInterrupted | internal/chatui/server.go:175-181 | The sweep at sixteen streams drops exactly the interrupted ones |
| EventHub.Server.Broadcast | internal/chatui/server.go:204-214 | Each listener gets the frame or, if full, is closed and removed; nothing is sent to or closed twice after closing |
| EventHub.Server.Notify | internal/chatui/server.go:216-228 | All fields after a notice |
| StreamLife.NoticeCarries | internal/chatui/server.go:216-228 | A notice carries its kind, conversation and message and nothing else |
| EventHub.Server.SetGeneration | internal/chatui/server.go:104-115 | A blank generation changes nothing; any other restarts numbers and log and nothing else |
| StreamLife.GenerationExactly | internal/chatui/server.go:104-115 | What a new generation changes, and that one of white space changes nothing |
| EventHub.Server.Register | internal/chatui/server.go:889-902 | A ninth listener is refused; any other starts with an open, empty channel |
| StreamLife.RegisteredExactly | internal/chatui/server.go:889-902 | Registration is refused exactly at eight listeners |
| EventHub.Server.Take | internal/chatui/server.go:923-937 | The reader gets frames in order and an end only from a closed, drained channel |
| EventHub.Server.AttachEvents | internal/chatui/attach.go:388-424 | The answer of a poll: bad cursor, changed generation, expired cursor, or the logged events after it |
| HubRuns.StepLog | internal/chatui/server.go:151-163 | Every step keeps the log equal to the last 256 events, numbered without gap up to eventSeq |
| HubRuns.StepSse | internal/chatui/server.go:200-214 | Every step keeps each channel a gap-free stretch of the frames since it joined, and each frame that of its own event |
| HubRuns.Always | internal/chatui/server.go:104-228 | Log, listener and stream invariants after any interleaving |
| HubRuns.HistoryGrows | internal/chatui/server.go:104-228 | What was recorded is never changed, and a new generation starts after all of it |
| HubRuns.DeliveryIsConsecutive | internal/chatui/server.go:883-939 | Frames sent to a listener have consecutive numbers from the first event after it joined; a closed one ends exactly before the first frame not sent |
| HubRuns.ClosedOnlyWhenFull | internal/chatui/server.go:204-214 | A channel is closed only by the event that finds it full, and then it is removed |
| HubRuns.PollIsExact | internal/chatui/attach.go:388-424 | A cursor expires exactly when its next event was evicted, or when it is the largest 64-bit number and anything is logged; otherwise all events after it are returned |
| HubRuns.PollerGetsHistory | internal/chatui/attach.go:400-422 | A client advancing by next_seq, never told to start over, holds the exact history of its generation up to its cursor, whatever other generations are set meanwhile |
| HubRuns.SetAgainMisleads | internal/chatui/server.go:104-115 | The run in which a generation set again, or a client that names none, makes a poll miss an event |
| HubRuns.StreamsFollowHistory | internal/chatui/server.go:160-196 | Within a generation the streams change only by the events recorded |
| HubRuns.SnapshotPlusReplay | internal/chatui/snapshot.go:27-48 | Snapshot text followed by the text polled from snapshot_seq is the live text, exactly while it is not truncated |
| HubRuns.FramesReplayExactly | internal/chatui/server.go:197-201 | Over any run, what a channel was given carries the same text as the events recorded meanwhile exactly when no piece of it exceeds 64 KiB; for a listener these are all events since it joined |
| HubRuns.SnapshotPlusFrames | internal/chatui/snapshot.go:27-48 | Snapshot text followed by the text of a listener's frames after the snapshot's number is the live text, while that is not truncated, exactly when no piece since exceeds 64 KiB |
| Owner.Server.ReserveContext | internal/chatui/execution.go:33-44 | A slot is given exactly when the chat is named and free, nothing is closing and capacity is left |
| Owner.Server.Release | internal/chatui/execution.go:45-52 | The slot goes, and the stop is requested if it was the last while stopping |
| Owner.Server.Done | internal/chatui/execution.go:53 | The wait group is counted down after the slot is gone |
| Owner.Server.CancelConversation | internal/chatui/execution.go:59-69 | Only a running execution with the binding asked for is cancelled |
| Owner.Server.CancelAll | internal/chatui/server.go:138-140 | Exactly the running executions are cancelled |
| Owner.Server.HandoffBegin | internal/chatui/attach.go:345-366 | The answer and the fields after a handoff's first section |
| Owner.Server.HandoffEnd | internal/chatui/attach.go:367-378 | The fields after CloseCommands answered either way |
| Owner.Server.TryIdleShutdown | internal/chatui/client_lifetime.go:55-80 | The Owner stops exactly when nothing runs, listens, asks or remains; only expired clients are dropped, in any order |
| Owner.Server.WatchDatabaseOwner | internal/chatui/client_lifetime.go:90-106 | Losing the database stops admission, cancels everything and requests the stop |
| Owner.Server.CloseBegin | internal/chatui/server.go:136-141 | Close refuses new work and cancels what runs |
| Owner.Server.EnterClientRequest | internal/chatui/client_lifetime.go:10-33 | Requests are admitted exactly when not closed and, while stopping, only GET; stale clients go |
| OwnerRuns.StepSlots | internal/chatui/execution.go:33-58 | Every step keeps one slot per live thread, at most the capacity, and the wait group equal to slots plus releases past their delete |
| OwnerCalls.CancelledExactly | internal/chatui/execution.go:59-69 | An execution holding a slot is cancelled by exactly these steps: Close, database loss, a handoff that begins, a cancellation of its conversation with its binding or none, its own release |
| OwnerCalls.AllCancelled | internal/chatui/client_lifetime.go:99-105 | Over all interleavings, Close, database loss and a beginning handoff cancel every execution that holds a slot, for good |
| OwnerCalls.ClosedMeansCancelled | internal/chatui/server.go:135-141 | Once Close has begun every execution there is or was is cancelled, and so is whatever released its slot |
| OwnerCalls.ClosedForGood | internal/chatui/execution.go:36-38 | After Close begins nothing starts and no request is admitted, in any continuation |
| OwnerCalls.HandoffBeginsExactly | internal/chatui/attach.go:345-366 | A handoff begins exactly when the server is open, not stopping, and the caller asked to cancel or nothing runs and no command is live |
| OwnerRuns.ReleaseRemovesOwnSlot | internal/chatui/execution.go:45-52 | A release removes the slot of its own execution and no other |
| OwnerRuns.NoLostShutdown | internal/chatui/execution.go:45-58 | Over all interleavings: stopping with nothing running and no handoff in between implies the stop was requested |
| OwnerRuns.DrainedForever | internal/chatui/server.go:135-149 | Once Close passes its wait, no execution is live and none ever starts |
| OwnerRuns.SealBrokenExactly | internal/chatui/attach.go:365-378 | The only step that reopens admission after the stop was requested is a CloseCommands failure after it |
| OwnerRuns.SealedThroughoutExactly | internal/chatui/attach.go:365-378 | Over whole runs, admission stays closed from every stop request on exactly when that failure never occurs |
| OwnerRuns.StoppingIsPermanent | internal/chatui/client_lifetime.go:13-15 | Without that failure: once the stop is requested no slot is reserved, no request but GET admitted, and nothing runs unless the database was lost |
| OwnerRuns.StopRequestedStays | internal/chatui/server.go:131-133 | A requested stop is never taken back |
| OwnerRuns.ReservedAfterStop | internal/chatui/attach.go:367-373 | A run in which that failure lets a slot be reserved after the stop was requested |
| OwnerRuns.IdleStopIsFinal | internal/chatui/client_lifetime.go:55-80 | In every run, an idle check that makes the process stop found no execution holding a slot, no request and only expired clients, and its stop is final: whatever follows, failures of CloseCommands included, nothing runs, nothing can be reserved and only GET is admitted |
| OwnerCalls.IdleStopsExactly | internal/chatui/client_lifetime.go:55-80 | The idle check stops exactly under its eight conditions, and keeps every client seen within 45 seconds |
| OwnerCalls.EnteredExactly | internal/chatui/client_lifetime.go:10-33 | What an admitted request counts and records, and which clients go |
| OwnerCalls.ClientKeepsServer | internal/chatui/client_lifetime.go:10-80 | A client that was seen keeps the server from idle shutdown for 45 seconds, whatever else happens, unless it leaves |
| Snapshot.StreamsShown | internal/chatui/snapshot.go:33-40 | Every stream is listed once per turn that shows its run, in some order of the map |
| Snapshot.ShownExactly | internal/chatui/snapshot.go:33-40 | The streams listed are exactly those of the runs shown, whatever the order |
| Snapshot.ActiveChats | internal/chatui/execution.go:15-29 | The chats that run, ascending, and the least of them first |
| Snapshot.ReadChatSnapshot | internal/chatui/snapshot.go:17-52 | At most three reads, never the panic; an earlier attempt is left only if unstable; an unstable result is the third and busy |
| Snapshot.SameStateExactly | internal/chatui/server.go:154-157 | Over any actions: within a generation stateSeq never decreases and is unchanged exactly when only model text was recorded; across a new one it is equal exactly when both last changed at the same number |
| Snapshot.StableExactly | internal/chatui/snapshot.go:19-32 | Over any actions, stable exactly when the slot is the same at both ends and the state numbers cannot tell the histories apart |
| Snapshot.ResetCanHideEvents | internal/chatui/server.go:104-115 | Across a new generation a snapshot can be stable although events were recorded |
| Snapshot.PayloadPlusPoll | internal/chatui/snapshot.go:33-48 | A stream taken from the payload, followed by the text polled from the payload's generation and number, is the live text exactly while it is not truncated |
| SnapshotRuns.Always | internal/chatui/execution.go:33-58 | Owner and hub running together, with the notice of each release, keep both invariants |
| SnapshotRuns.ReleasedIsDue | internal/chatui/execution.go:45-54 | Over all joint runs: if nothing but text was recorded, every execution released meanwhile is still due its notice |
| SnapshotRuns.StableHidesOnlyDue | internal/chatui/snapshot.go:19-32 | Over all joint runs: when a snapshot is stable, and that within a generation a stable one hides only executions still due their notice |
| SnapshotRuns.HidesExecutionExactly | internal/chatui/execution.go:45-54 | A stable snapshot can hide a whole execution of its conversation exactly when that is named and free at the first section and the server neither closed nor stopping with no handoff that could still fail |
| SnapshotRuns.HiddenExecution | internal/chatui/execution.go:45-54 | The run that does it, with the notice of the hidden execution still due |
| TelegramPull.StepInv | internal/channelplugin/telegram.go:27-131 | Every step, with any failure or crash, keeps the protocol's invariant |
| TelegramRuns.NoUpdateLost | internal/channelplugin/telegram.go:72-131 | In every reachable state each update up to the persisted position was accepted, purged, or skipped as not eligible; the platform forgot none above it; Core accepted in increasing order, repeats apart |
| TelegramRuns.EligibleIsAccepted | internal/channelplugin/telegram.go:86-127 | With one configured cutover every eligible update up to the persisted position was accepted unless purged |
| TelegramRuns.NoPollBeforePurge | internal/channelplugin/telegram.go:32-53 | Nothing is polled under a cutover until its purge is persisted as finished |
| TelegramRuns.PurgedAtMostOnce | internal/channelplugin/telegram.go:38-52 | While the cutover stays the same the purge is called at most once over any crashes and restarts |
| TelegramRuns.SmoothPassDelivers | internal/channelplugin/telegram.go:86-130 | A pass without failures gives Core exactly the eligible updates in order and persists the last id |
| TelegramRuns.HandedExactly | internal/channelplugin/telegram.go:91-108 | A newer update is handed to Core exactly when it was recognised, is not from before the cutover and names no other bot |
| TelegramRuns.PollExactly | internal/channelplugin/telegram.go:79-85 | A poll confirms everything up to the position and nothing beyond, and more than 100 updates are no answer |
| TelegramPlugin.Plugin.SaveCursor | internal/channelplugin/client.go:142-167 | The file is the old cursor or the new one, and the new one if it reports success |
| TelegramPlugin.Plugin.LoadCursor | internal/channelplugin/client.go:123-141 | A missing file is position zero; an unreadable or negative one is an error |
| TelegramPlugin.Plugin.StartUp | internal/channelplugin/telegram.go:27-53 | From the cursor file and the answers alone: exactly when a start goes on to poll and from where, when it ends as purge unknown, as unable to save and as unable to load; its calls come in order, each after the one before succeeded |
| TelegramPlugin.Plugin.CutOver | internal/channelplugin/telegram.go:38-48 | Mark, purge and finish at a new cutover, each only after the one before |
| TelegramPlugin.Plugin.OfferUntilAccepted | internal/channelplugin/telegram.go:109-120 | One update is offered again after every failure until Core accepts it or is gone, and Core has it once per call that took effect |
| TelegramPlugin.Plugin.HandleUpdate | internal/channelplugin/telegram.go:91-129 | One newer update is offered or passed over and then the position persisted |
| TelegramPlugin.Plugin.HandleBatch | internal/channelplugin/telegram.go:86-130 | What Core got, repeats apart, is a first part of the batch's eligible newer ids in order, and all of them when the batch is done; then the last newer id is persisted |
| TelegramPlugin.Plugin.PullLoop | internal/channelplugin/telegram.go:72-131 | The loop polls first, and when no call fails hands Core the newer eligible ids of the first batch in order |
| TelegramPlugin.Plugin.RunTelegram | internal/channelplugin/telegram.go:27-133 | Every run of the loop extends the protocol's run by exactly one call per reply, in order and as answered, with only the given arrivals and passed-over updates between; it stops early only for what its last call answered or found, and otherwise only when replies run out; with good answers it never stops early, polls right after the start, and gives Core the eligible ids of the first batch in order |
| Utf8.DecodeEncode | internal/channels/telegram.go:212-214 | Every scalar value in UTF-8 is read back, whatever follows |
| Utf8.ValidIsEncoding | internal/channels/telegram.go:207-214 | What is read as well formed is the encoding of the code point read |
| Utf8.WellFormedExactly | internal/channels/telegram.go:208-214 | A read is well formed exactly when an encoding stands at the front; otherwise it takes one byte and gives U+FFFD |
| Utf16.DecodeEncode | internal/channels/telegram.go:213 | Code units by section 2.1 of RFC 2781 are read back by section 2.2, whatever follows |
| Utf16.CodeUnitsReadBack | internal/channels/telegram.go:212-214 | The code units of a text stand for exactly its code points |
| TelegramText.SplitTelegramText | internal/channels/telegram.go:279-295 | The parts concatenate to the text, cut no code point, have 1 to 4000 UTF-16 code units, and none that is followed could take the next code point's |
| TelegramText.PartsInOrder | internal/channels/telegram.go:279-295 | The parts stand in the text one after the other |
| TelegramText.SplitIsMinimal | internal/channels/telegram.go:277-295 | No partition between code points within the limit has fewer parts |
| TelegramText.ValidTelegramText | internal/channels/telegram.go:207-216 | True exactly for well-formed text of 1 to the given number of UTF-16 code units |
| TelegramText.PartsAreSendable | internal/channels/telegram.go:207-216 | Every part of a valid text passes the check before sending |
| QQWindows.Windows.NextReply | internal/channelplugin/apps.go:134-142 | A number is issued exactly for a live window with fewer than five, and it is the next one |
| QQWindows.Windows.Webhook | internal/channelplugin/apps.go:168-181 | Expired windows go, the 513th is refused, an existing window is kept as it is |
| QQWindows.AlwaysWithinWindow | internal/channelplugin/apps.go:121-183 | Over all interleavings: at most 512 windows, and in each the numbers issued are 1 to k, k at most 5, within 120 s of its opening |
| QQWindows.SendExactly | internal/channelplugin/apps.go:134-142 | A reply is numbered exactly in a window at most 120 s old with fewer than five |
| QQWindows.ReceiveExactly | internal/channelplugin/apps.go:168-181 | What a received message drops, when it is refused, and which window it opens |
| QQWindows.FiveReplies | internal/channelplugin/apps.go:134-181 | A received message can be answered five times and not a sixth |
| QQWindows.AlwaysApart | internal/channelplugin/apps.go:168-181 | Under a clock that does not go back, windows of one message are opened more than 120 s apart |
| QQWindows.IssuedTwiceExactly | internal/channelplugin/apps.go:134-181 | A number is issued twice for one message exactly when two windows opened for it more than 120 s apart both issued that many replies |
| QQWindows.ReceivedAgain | internal/channelplugin/apps.go:168-181 | The run in which a message received again after its window expired is answered with number one twice |

## Left out

- EventHub.Server.OnEvent: event numbers are unbounded integers; wrap-around after 2^64 events of one generation is not modelled (the cursor a client sends does wrap).
- EventHub.Server.AttachEvents: the active chats and bindings in the answer are read from the Owner's slots and not part of the hub; `Snapshot.ActiveChats` models the list.
- EventHub.Server.Notify: the wire form of a frame (JSON) is not modelled; a frame is the event it encodes.
- LarkAssembler.LarkAssembler.Add: an entry is a value in the map, not a separate object, since nothing but the map ever refers to it.
- LarkFrame.Marshal: nil and empty byte slices are not told apart, as the decoder does not tell them apart either.
- Owner.Server.TryIdleShutdown: the two-second timeout of the work query is part of its answer.
- Snapshot.ReadChatSnapshot: the foreground capacity and the server version in the payload are constants and not modelled.
- TelegramPlugin.Plugin.RunTelegram: the outbox that runs beside the loop only cancels it, which is one of the places where replies run out; callback answers to the platform are ignored as the program ignores their errors.
- TelegramPlugin.Plugin.LoadCursor: the JSON form, version, Core and application checks of the file are one readable-or-not answer.
- QQWindows.Windows.NextReply: the platform call after the critical section may fail or be late; only the issue of a number is timed.
- Mapping a Telegram update to an event and filtering commands: each update carries whether it was recognised, its date and whether its command names another bot.
- HTTP, websocket dialling, tokens, media, JSON decoding, signatures and authentication: I/O over libraries outside the repository.
- TaskService, Store, ControlService, permissions, memory and collaboration: only their answers enter, as arguments.
- Input queue advancement: only further reservations after a release.
- Command line, desktop shell, settings, extensions and release scripts.
