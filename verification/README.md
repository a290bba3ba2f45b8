# Message channels over remote and shared memory

A Dafny model of the lock-free message channels of this library, and proofs about them. The channels have no
locks and mostly no notifications: a sender writes into a ring in the memory of its peer, the peer polls that memory, and
each side learns how far the other got by reading a counter. What can go wrong is timing, so the channels are
modelled as step systems in which sender, network card, receiver and completion queue interleave freely, byte by byte,
and the theorems speak about every run.

| Files | What they model |
|---|---|
| `Frames`, `Rings` | frame format `size, payload, validity`, torn words, rings addressed by stream positions |
| `Inbox`, `Channel`, `Schedules`, `Polling`, `Intake` | `RDMAMessageBuffer` as a protocol: three part-writes, late reads by the card, front-to-back arrival, byte-wise polling, clearing, publishing, reading the remote position |
| `Misframing`, `Progress` | exactly which payloads survive; no run is stuck |
| `VirtualChannel`, `VirtualLimits`, `VirtualProgress` | `VirtualRDMARingBuffer`: `send` and `sendParanoid`, which orders of arrival they need, and that no run is stuck |
| `LateCard`, `LateLimits` | `send` of that ring with a card that reads late, and exactly when that is safe |
| `Counters`, `Wraparound` | power-of-two sizes, masks, 64-bit counters that wrap around, two-segment copies, the doubled mapping |
| `MessageBuffers`, `Delivery` | `RDMAMessageBuffer` as the object it is (arrays, loops, 64-bit fields), proved against stream positions and tied to the protocol |
| `Signalling` | selective signalling: event channel, armed notification, completion queue, send queue of fixed depth |
| `SharedRing`, `AsWritten` | the shared-memory byte ring, with the intended guard and with the guard as it is written |
| `Chunking`, `SharedDeadlock`, `SharedRuns` | the chunk loops on top of it, when two peers lock up, and that equal peers always finish |
| `Transport` | the chunked RDMA transport on top of the ring |
| `Doorbell`, `DoorbellProgress`, `Answers`, `Polls` | the many-to-one server: doorbells, answers, vectorised polls |
| `Pipeline`, `PipelineProgress` | the pipelined client loop of all threads on top of that protocol |
| `Credits` | the receive credits of the other server |

Every step system has the same shape: a `State`, a `Step` datatype, `Enabled` and `Do`, an invariant `Inv`, one small
lemma for each kind of step, and `Legal`/`Run` for runs of any length. What callers handed over is read off the steps of a run
(`Handed`, `HandedBy`, `Arrivals`, `Calls`), never off a record that the step system keeps itself. Where a promise does not hold of the code, there is a run that breaks it and an if-and-only-if that
says when it holds.

What is taken from outside: reliable, ordered delivery between one pair of queue pairs, completions in posting
order, atomic 8-byte reads of the published read position, and for the doubled mapping "index i names physical byte i mod
size". Results of RDMA READs are parameters of the methods that wait for them.

## What the code does differently from what it says

- `datastructures/VirtualRingBuffer.cpp:36-40`: the comments promise to skip the remote read when there is room and to
  block otherwise; the early return tests the opposite. `SharedRing` has both guards: its theorem is about the
  intended one, `AsWritten` says what the other one does and exactly when it is harmless.
- `datastructures/VirtualRDMARingBuffer.h:49,71`: the send buffer is filled before space is awaited, so beyond inline sizes
  the caller has to see to it that there is room (`LateCard.CarefulRunsAreSafe`, `LateLimits.InlineIsExact`).
- `datastructures/VirtualRDMARingBuffer.h:83-138`: two writes a message and one signal in 4096 messages can exceed the
  send queue depth once the ring ran full (`Signalling.DepthIsExact`).
- A payload may be mistaken for a trailer (`Misframing.UnambiguityIsExact`), and a client may take a half-arrived
  answer because only the size word is reset (`Answers.EarlyTakeIsExact`).
- `include/RdmaTransport.h:110-116` ignores the received size and advances by the requested one
  (`Transport.FillsIsExact`).

## Model

| member | source | states |
|---|---|---|
| `Frames.ValidityIsTheConstant` | datastructures/RDMAMessageBuffer.cpp:7 | the eight trailer bytes are the little-endian bytes of the validity word |
| `Frames.SizeWordRoundTrip` | datastructures/RDMAMessageBuffer.cpp:108 | decoding the little-endian bytes of a number that fits gives the number back |
| `Frames.TornIsNoLarger` | datastructures/RDMAMessageBuffer.cpp:15-19 | a size word of which some bytes were read before they arrived is never larger than the real one, and equal only if nothing was missed |
| `Frames.Unbordered` | datastructures/RDMAMessageBuffer.cpp:7 | the validity constant cannot begin inside a payload and end inside the trailer |
| `Frames.TrailerMatchIsExact` | datastructures/RDMAMessageBuffer.cpp:15-19 | a valid trailer found at a torn offset of an unambiguous frame is the real trailer, and the size was read whole |
| `Frames.FrameAt` | datastructures/RDMAMessageBuffer.cpp:102-110 | in the byte stream of any message sequence, frame i occupies exactly the bytes between offsets i and i + 1 |
| `Inbox.AcceptIsSound` | datastructures/RDMAMessageBuffer.cpp:12-28 | whenever size and trailer, observed byte by byte at any moments, match, the whole frame is there and the size is right |
| `Inbox.StepKeeps` | datastructures/RDMAMessageBuffer.cpp:12-49 | polling, copying, clearing, publishing and the size exception keep the receiver's invariant, in any order of observation |
| `Inbox.RefusalIsExact` | datastructures/RDMAMessageBuffer.cpp:40-42 | the size exception is thrown exactly if the oldest undelivered message is longer than the caller's maximum, and consumes nothing |
| `Inbox.LandKeeps` | datastructures/VirtualRDMARingBuffer.h:83-138 | a byte landing meanwhile keeps it too, even a late zero of a frame that was consumed already |
| `Channel.SendingKeeps` | datastructures/RDMAMessageBuffer.cpp:102-156 | every sender and card step keeps the invariant for arbitrary payloads |
| `Channel.StepKeeps` | datastructures/RDMAMessageBuffer.cpp:12-156 | every step of sender, card and receiver keeps the invariant |
| `Channel.SentIsHanded` | datastructures/RDMAMessageBuffer.cpp:98-110 | what the protocol treats as sent is, message for message, what the calls of `send` were given |
| `Channel.ReceivedIsPrefixOfSent` | datastructures/RDMAMessageBuffer.cpp:12-156 | torn-read safety: in every interleaving the received messages are a prefix of those handed to `send` |
| `Channel.FlowControlAlways` | datastructures/RDMAMessageBuffer.cpp:22-25 | in every reachable state cached position <= read position <= arrived <= posted <= sendPos <= cached + size, and every slot outside the unread bytes is zero |
| `Channel.LateReadsAlwaysSafe` | datastructures/RDMAMessageBuffer.cpp:106-156 | no byte of a posted, unarrived write is ever overwritten in the send buffer, however late the card reads it |
| `Schedules.SenderFinishes` | datastructures/RDMAMessageBuffer.cpp:102-149 | if the receiver has left room for the whole frame, a sender in any phase completes without help, reading the position again where needed |
| `Schedules.CardFinishes` | datastructures/RDMAMessageBuffer.cpp:112-127 | from any reachable state everything posted can arrive without help of sender or receiver |
| `Intake.PollOnce` | datastructures/RDMAMessageBuffer.cpp:12-28 | from any phase a poll ends after finitely many own steps, takes in at most one message, and takes one in if a frame was there from its start |
| `Intake.TakeArrived` | datastructures/VirtualRDMARingBuffer.h:143-166 | the receiver alone can take in every frame that has landed completely |
| `Progress.TakeArrived` | datastructures/RDMAMessageBuffer.cpp:12-28 | the receiver alone can take in all completely arrived frames |
| `Progress.SenderIsReleased` | datastructures/RDMAMessageBuffer.cpp:136-149 | a sender blocked before any of its three parts is released by finitely many arrivals, receives and reads of the position |
| `Progress.EverythingCanBeDelivered` | datastructures/RDMAMessageBuffer.cpp:102-156 | every reachable state can be continued until all messages handed to `send` are received |
| `Progress.NoRunIsStuck` | datastructures/RDMAMessageBuffer.cpp:102-149 | every run from the start can be continued until exactly what was handed over is received, and blocked senders need only arrivals and receives |
| `Misframing.AnySequenceGetsThrough` | datastructures/RDMAMessageBuffer.cpp:102-134 | any sequence of messages that fit the ring can be handed over and is received in full |
| `Misframing.Misframed` | datastructures/RDMAMessageBuffer.cpp:15-19 | after any delivered messages, a run in which a payload with the constant at a torn offset is cut short; the size bytes are read in ascending order, as the byte copy does |
| `Misframing.UnambiguityIsExact` | datastructures/RDMAMessageBuffer.cpp:12-28 | for any sequence of messages: all runs that send it (or part of it) deliver a prefix if and only if no torn reading of a size points at the constant in its payload |
| `Misframing.LeadingConstantIsAmbiguous` | datastructures/RDMAMessageBuffer.cpp:15-19 | every payload that starts with the constant is of the harmful kind |
| `Polling.Accept` | datastructures/RDMAMessageBuffer.cpp:15-19 | a receiver that has seen some bytes of a torn size completes it from a standing ring and accepts whatever trailer lies there |
| `Polling.TakeIn` | datastructures/RDMAMessageBuffer.cpp:21-27 | an accepted size, right or wrong, is copied out, cleared and published |
| `VirtualChannel.StepKeeps` | datastructures/VirtualRDMARingBuffer.h:39-166 | every step of `send` or `sendParanoid`, card and receiver keeps the invariant |
| `VirtualChannel.SentIsHanded` | datastructures/VirtualRDMARingBuffer.h:49-53 | what the protocol treats as sent is, message for message, what the calls were given, for both ways of sending |
| `VirtualChannel.ReceivedIsPrefixOfSent` | datastructures/VirtualRDMARingBuffer.h:83-166 | received is a prefix of what was handed over: for `send` with front-to-back arrival, for `sendParanoid` with bytes of one write in any order (early accepted empty frames included) |
| `VirtualLimits.CorruptedByte` | datastructures/VirtualRDMARingBuffer.h:42-81 | plain `send` with bytes in any order: a run that delivers [0] for any one-byte message |
| `VirtualLimits.OrderIsExact` | datastructures/VirtualRDMARingBuffer.h:83-138 | delivery is safe in all runs if and only if arrival is front to back or `sendParanoid` is used |
| `VirtualChannel.FlowControlAlways` | datastructures/VirtualRDMARingBuffer.cpp:55-70 | for both ways of sending, in every reachable state: cached <= read position <= sendPos <= cached + size (but for an empty message that `sendParanoid` let in early), and every window slot whose byte has not landed is zero |
| `VirtualProgress.SenderIsReleased` | datastructures/VirtualRDMARingBuffer.cpp:55-70 | a sender that waits for space is released by finitely many arrivals, receives and one read of the position |
| `VirtualProgress.NoRunIsStuck` | datastructures/VirtualRDMARingBuffer.h:39-166 | every run of either way of sending can be continued until exactly what was handed over is received |
| `VirtualProgress.AnySequenceGetsThrough` | datastructures/VirtualRDMARingBuffer.h:39-138 | any sequence of messages that fit the ring can be handed over, either way, and is received in full |
| `LateCard.CarefulRunsAreSafe` | datastructures/VirtualRDMARingBuffer.h:42-81 | if every `send` finds room when it is called, or comes after inline frames only, then however late the card reads, received is a prefix of what was handed over and no byte still to be read is overwritten |
| `LateLimits.WrongMessage` | datastructures/VirtualRDMARingBuffer.h:44-72 | otherwise: a run with frames of up to 513 bytes that delivers a message which was never handed over |
| `LateLimits.InlineIsExact` | datastructures/VirtualRDMARingBuffer.h:49-72 | for every ring size and frame length: all runs with frames up to that length deliver a prefix under late reads if and only if the length is at most the inline limit of 512 |
| `Counters.SizeCheckIsExact` | datastructures/RDMAMessageBuffer.cpp:63-66 | the constructor's bit trick accepts exactly the powers of two |
| `Counters.MaskIsExact` | datastructures/RDMAMessageBuffer.cpp:77 | `pos & (size - 1)` is pos mod size for all positions if and only if the size passes that check |
| `Counters.StoredSlot` | datastructures/RDMAMessageBuffer.cpp:77 | masking the 64-bit counter gives the true position mod size, across any number of overflows |
| `Counters.StoredDifference` | datastructures/RDMAMessageBuffer.cpp:138 | wrapped subtraction of two counters is the true difference |
| `Counters.FreeSpaceIsTrue` | datastructures/VirtualRDMARingBuffer.cpp:57-68 | `size - (sendPos - cached)` on wrapped counters is the true free space under flow control |
| `Wraparound.SegmentsAreExact` | datastructures/RDMAMessageBuffer.cpp:74-88 | the one or two segments are in bounds, ordered, gapless, complete, disjoint, and put byte j into slot (pos + j) mod size |
| `Wraparound.OverlapIsExact` | datastructures/RDMAMessageBuffer.cpp:74-88 | the segments are disjoint if and only if the range is no longer than the ring |
| `Wraparound.CopyInIsPutAll` | datastructures/RDMAMessageBuffer.cpp:151-153 | the two-segment copy refines the byte-wise placement by stream position |
| `Wraparound.CopyOutIsSlice` | datastructures/RDMAMessageBuffer.cpp:158-163 | the two-segment read returns the bytes at positions pos, pos + 1, ... |
| `Wraparound.ReadBack` | datastructures/RDMAMessageBuffer.cpp:151-163 | reading where data was just put returns the data |
| `Wraparound.DoubledIsTwoSegment` | util/virtualMemory.cpp:24-54 | a straight copy into the doubled mapping leaves the same physical bytes as the two-segment copy |
| `Wraparound.SameHistorySameRing` | datastructures/VirtualRDMARingBuffer.h:44-59 | both ring implementations hold the same bytes after the same history of writes |
| `MessageBuffers.CopyAround` | datastructures/RDMAMessageBuffer.cpp:90-96 | copying on the array with the wrapped counter places every byte by its true stream position |
| `MessageBuffers.MessageBuffer.WaitUntilSendFree` | datastructures/RDMAMessageBuffer.cpp:138-149 | the wait ends with room exactly if a known or read position leaves room, and stops reading as soon as one does |
| `MessageBuffers.MessageBuffer.WriteToSendBuffer` | datastructures/RDMAMessageBuffer.cpp:136-156 | on success exactly the data is placed at sendPos, otherwise the buffer is untouched; flow control is kept |
| `MessageBuffers.MessageBuffer.WriteFrame` | datastructures/RDMAMessageBuffer.cpp:106-110 | the three parts together place the frame, exactly if the latest position leaves room for all of it |
| `MessageBuffers.MessageBuffer.Send` | datastructures/RDMAMessageBuffer.cpp:102-134 | refuses exactly what never fits; otherwise frame in place, position advanced, and the posts are the segments of the frame |
| `MessageBuffers.MessageBuffer.ReadFromReceiveBuffer` | datastructures/RDMAMessageBuffer.cpp:158-163 | returns the bytes at the true positions and changes nothing |
| `MessageBuffers.MessageBuffer.ZeroReceiveBuffer` | datastructures/RDMAMessageBuffer.cpp:165-169 | zeroes exactly the positions given |
| `MessageBuffers.MessageBuffer.HasData` | datastructures/RDMAMessageBuffer.cpp:171-178 | true exactly if the trailer lies where the size word puts it |
| `MessageBuffers.MessageBuffer.Receive` | datastructures/RDMAMessageBuffer.cpp:30-49 | payload, cleared ring and advanced position on success; a too long message or no message changes nothing |
| `MessageBuffers.FrameInThreeParts` | datastructures/RDMAMessageBuffer.cpp:108-110 | size, payload and trailer put one after the other are the frame put at once |
| `Delivery.CarriedFrame` | datastructures/RDMAMessageBuffer.cpp:112-127 | the posted segments carry the frame to the same stream position of the remote ring |
| `Delivery.FrameIsFound` | datastructures/RDMAMessageBuffer.cpp:12-22 | a frame lying anywhere in a ring, wrapped or not, is found with its size and payload |
| `Delivery.ClearingRestores` | datastructures/RDMAMessageBuffer.cpp:23 | clearing what was received restores the ring as it was before the frame came |
| `Delivery.TransferAll` | datastructures/RDMAMessageBuffer.cpp:12-134 | any sequence of messages through two objects comes out as it went in, with sends and receives in any order that room allows, across rounds of ring and counters |
| `Delivery.SpaceIsComputed` | datastructures/RDMAMessageBuffer.cpp:138-148 | in every state of the protocol the 64-bit expression gives the free space of the model |
| `Delivery.PostsAreSegments` | datastructures/RDMAMessageBuffer.cpp:112-114 | the writes of the protocol model are the segments that `wraparound` computes |
| `Delivery.HasDataIsExact` | datastructures/RDMAMessageBuffer.cpp:171-178 | in every state of the protocol `hasData` is true if and only if the next frame is there in full, and what it shows is the oldest undelivered message |
| `Signalling.StepKeeps` | rdma/CompletionQueuePair.cpp:95-117 | posting, completing, polling and every line of `waitForCompletion` keep the invariant, stale events included |
| `Signalling.SignalsAreExact` | datastructures/RDMAMessageBuffer.cpp:116-123 | in every run exactly the (last) write of every 4096th message, counted from the first, is signalled |
| `Signalling.OutstandingBound` | datastructures/VirtualRDMARingBuffer.h:60-80 | in every state of the invariant at most 8192 requests are unretired with `send`, 16384 with `sendParanoid` |
| `Signalling.EarlierOnesRetired` | rdma/CompletionQueuePair.cpp:105-116 | between sends every signalled request before the last one is retired |
| `Signalling.SendNeverOverflows` | datastructures/RDMAMessageBuffer.cpp:116-132 | with `send`, in every run: at most 8192 unretired requests, at most two completion queue entries, and events + armed = 1 outside the wait |
| `Signalling.EventArrives` | rdma/CompletionQueuePair.cpp:95-97 | a sender waiting for an event gets one after finitely many completions |
| `Signalling.ReadIsPolled` | datastructures/VirtualRDMARingBuffer.cpp:58-69 | polling for the id of the read ends after finitely many completions and polls |
| `Signalling.ParanoidOverflows` | datastructures/VirtualRDMARingBuffer.h:108-138 | a run of `sendParanoid` with exactly 16384 unretired requests, more than the queue depth of 16351 |
| `Signalling.WithoutReadsOnePeriod` | datastructures/VirtualRDMARingBuffer.h:108-138 | while the ring never runs full, at most one signalling period of requests is unretired: 4096 with `send`, 8192 with `sendParanoid` |
| `Signalling.DepthIsExact` | rdma/QueuePair.hpp:16 | the depth of 16351 suffices in all runs if and only if a message is a single write or the ring never runs full |
| `SharedRing.PublishedIsHanded` | datastructures/VirtualRingBuffer.cpp:43-53 | the published bytes are the beginning of those handed to `send`, and all of them between calls |
| `SharedRing.ReceivedIsPrefixOfSent` | datastructures/VirtualRingBuffer.cpp:43-89 | with the intended guard, for any mix of `receive` and `receiveSome`: received is a prefix of what was handed over, never more than a ring underway, cached position never ahead |
| `SharedRing.CallReceives` | datastructures/VirtualRingBuffer.cpp:55-89 | whatever happens meanwhile, `receive(max)` appends exactly max bytes, `receiveSome(max)` exactly the smaller of max and what was published when it looked |
| `SharedRing.SomeIsReceived` | datastructures/VirtualRingBuffer.cpp:68-82 | with anything unread `receiveSome` gets through without the writer |
| `AsWritten.AsWrittenNeverBlocks` | datastructures/VirtualRingBuffer.cpp:35-41 | with the guard as written no call of `send` ever waits for the reader, in any run |
| `AsWritten.AsWrittenSend` | datastructures/VirtualRingBuffer.cpp:43-53 | as written, any `send` no longer than the ring just copies, whatever is unread |
| `AsWritten.RoomyRunsAreIntact` | datastructures/VirtualRingBuffer.cpp:35-89 | as written, every run in which each `send` finds room when it is called receives a prefix of what was handed over, whatever the reader does meanwhile |
| `AsWritten.NoRoomBreaksTheStream` | datastructures/VirtualRingBuffer.cpp:35-89 | as written, from every reachable state and for every length without room there are data and a continuation whose received bytes are no prefix of those handed over |
| `AsWritten.OverwritingRun` | datastructures/VirtualRingBuffer.cpp:35-53 | for every ring size a run whose first received byte is not the first one handed over |
| `Chunking.ChunkLoop` | include/SharedMemoryTransport.h:79-94 | the loop makes ceil(size / ring) calls that add up to the size, all but the last of exactly the ring size |
| `Chunking.ChunksAreFull` | include/SharedMemoryTransport.h:81 | the pieces are as few as possible, and every one but the last is full |
| `Chunking.AllChunksWithin` | include/SharedMemoryTransport.h:79-94 | the same for whole sequences of calls |
| `SharedRuns.LockUpIsExact` | datastructures/VirtualRingBuffer.cpp:35-89 | two peers whose writes fit the ring block each other in some byte-level run if and only if some pair of call counts makes both wait |
| `SharedRuns.LockUpIsInevitable` | include/SharedMemoryTransport.h:79-94 | if two peers can lock up at all, no byte-level run completes either list of calls |
| `SharedDeadlock.SameCallsNeverWait` | include/SharedMemoryTransport.h:79-94 | with the same calls on both sides there is no such pair |
| `SharedRuns.MismatchLocksUp` | include/SharedMemoryTransport.h:79-94 | write(1), write(N) against read(N + 1) reaches a byte-level state in which both wait, for every ring size N >= 2 |
| `SharedRuns.SameSizesNeverLockUp` | datastructures/VirtualRingBuffer.cpp:35-66 | peers using the same sequence of sizes never both wait, in any byte-level interleaving |
| `SharedRuns.SameSizesComplete` | include/SharedMemoryTransport.h:79-94 | every such run can be continued until both have worked off all their calls and exactly what was handed over is received |
| `SharedRuns.AnyDataGetsThrough` | include/SharedMemoryTransport.h:79-94 | any data can be handed over in calls that fit the ring and is received |
| `Transport.SplitLengths` | include/RdmaTransport.h:101-116 | writer and reader cut a call of the same size into the same chunks |
| `Transport.SplitFits` | include/RdmaTransport.h:101-107 | every chunk fits one frame of the ring |
| `Transport.SplitIsPieces` | include/RdmaTransport.h:101-107 | piece i of a write is bytes i * cap up to (i + 1) * cap or the end of the data, with cap the ring size less 16 |
| `Transport.Write` | include/RdmaTransport.h:101-107 | never throws and appends exactly these pieces, for any size |
| `Transport.Read` | include/RdmaTransport.h:109-116 | gets through, throws or waits exactly as the queued messages say; the buffer content is determined |
| `Transport.Ring.Receive` | datastructures/VirtualRDMARingBuffer.cpp:38-53 | both size checks throw without consuming; otherwise the next message is copied |
| `Transport.ReadUndoesWrite` | include/RdmaTransport.h:138-153 | a read of the same size gets through and puts the written bytes back together |
| `Transport.MessageLandsAtItsChunk` | include/RdmaTransport.h:109-116 | message i is copied to offset i * cap, however long the messages before it were |
| `Transport.FillsIsExact` | include/RdmaTransport.h:147-153 | a read that gets through fills the caller's buffer if and only if every message has exactly the size of its chunk |
| `Transport.ReadsUndoWrites` | include/RdmaTransport.h:101-116 | any sequence of writes read back with the same sizes comes out byte for byte |
| `Transport.EndToEnd` | include/RdmaTransport.h:138-153 | in every interleaving of the ring protocol in which the pieces of a sequence of writes are handed over, once those of the first k are received the reads reproduce these k writes |
| `Transport.EveryWriteCanBeRead` | include/RdmaTransport.h:101-116 | every run that has handed over the pieces of a sequence of writes can be continued until reads of the same sizes reproduce them |
| `Transport.AnyWritesGetThrough` | include/RdmaTransport.h:101-116 | any sequence of writes can be made and read back |
| `Doorbell.StepKeeps` | include/MulticlientRDMATransport.h:199-234 | issuing, bytes landing in any order, bells, polling, reading, answering, and the client's looks, copies and reset keep the invariant |
| `Doorbell.SetBellIsRung` | include/MulticlientRDMATransport.h:143-152 | a set bell means that its client's request lies complete in its slot |
| `Doorbell.TakenIsRequest` | include/MulticlientRDMATransport.h:146-151 | what the server takes is the client's request in full |
| `Doorbell.CollectedIsEcho` | include/MulticlientRDMATransport.h:224-234 | what a client reads out of its answer buffer is the request it had outstanding |
| `Doorbell.ExactlyOnce` | include/MulticlientRDMATransport.h:143-152 | in every interleaving the requests that each client handed over are taken once, in order, complete and under its id, and what it reads out of its buffer are exactly its own values |
| `Doorbell.ReadsOnlyRungSlots` | transports/MulticlientRDMATransport.cpp:58-69 | the server never reads an unrung slot, and the slot does not change while it reads |
| `DoorbellProgress.ServerFinishes` | transports/MulticlientRDMATransport.cpp:58-84 | whoever the server is busy with gets an answer after finitely many server steps, and no other client is disturbed |
| `DoorbellProgress.RungIsAnswered` | include/MulticlientRDMATransport.h:60-75 | a rung bell is answered after no more services than bells are rung, although the scan always takes the highest bell of the first block |
| `DoorbellProgress.EveryRequestIsAnswered` | include/MulticlientRDMATransport.h:143-152 | every run can be continued by card and server alone, with the scan picking, until a waiting client has the echo of its last request in its buffer |
| `DoorbellProgress.AnyMessageIsEchoed` | include/MulticlientRDMATransport.h:199-234 | whatever the others do, a client that waits for nothing can send any nonempty message that fits and reads it back |
| `Answers.EarlyTakeIsExact` | include/MulticlientRDMATransport.h:224-234 | with byte-wise arrival a client takes nothing but whole answers if and only if no size seen on the way points at an earlier EOT byte |
| `Answers.SameLengthIsExposed` | include/MulticlientRDMATransport.h:226-233 | an answer as long as its predecessor always meets the leftover trailer |
| `Answers.NextAnswerIsExposed` | include/MulticlientRDMATransport.h:233 | since only the size word is reset, the answer after one of the same length can be taken before it has arrived |
| `Answers.AtomicAnswersAreSound` | include/MulticlientRDMATransport.h:224-234 | an answer placed at once is taken whole whatever was left over, and an empty one never |
| `Polls.MaskNamesHighestLane` | multiclientPollingBench.cpp:321-327 | complement, leading zeros and division by the lane width name the highest set lane |
| `Polls.ScalarPoll` | multiclientPollingBench.cpp:300-310 | returns the first set cell and clears only it |
| `Polls.VectorPoll` | multiclientPollingBench.cpp:315-356 | returns the highest set cell of the first nonempty block and clears only it, for every lane count and width in use |
| `Polls.HighestLane` | include/MulticlientRDMATransport.h:66-71 | the lane computed from the mask is set and none above it is |
| `Polls.StringComparePoll` | multiclientPollingBench.cpp:518-532 | picks what the scalar scan picks |
| `Polls.PicksAreDistinct` | multiclientPollingBench.cpp:463-532 | picks are distinct rung indices and each lowers the number of rung cells by one |
| `Polls.PollAll` | multiclientPollingBench.cpp:463-532 | without new rings, as many polls as cells are set return each rung index once, whichever of the scans and lane widths each poll uses |
| `Pipeline.SplitIsExact` | multiclientRecvVsPoll.cpp:38-50 | the shares of all threads add up exactly, and with no more threads than clients each thread gets a client |
| `Pipeline.SplitIsEven` | multiclientRecvVsPoll.cpp:47-48 | earlier threads get at most one piece more than later ones and never less |
| `Pipeline.NextIsFree` | multiclientRecvVsPoll.cpp:81-85 | the client about to be written has nothing outstanding, and afterwards exactly this message |
| `Pipeline.AnswerIsExpected` | multiclientRecvVsPoll.cpp:73-78 | what `read` returns for the popped client, taken from its answer buffer, is the value popped with it |
| `Pipeline.StepKeeps` | multiclientRecvVsPoll.cpp:69-93 | every access of any thread, the card or the server keeps the invariant of all threads |
| `Pipeline.FaultsAreNoticed` | multiclientRecvVsPoll.cpp:77 | an answer with another value, a pop of an empty queue and a write to a waiting client are recorded for good |
| `Pipeline.NothingUnexpected` | multiclientRecvVsPoll.cpp:69-93 | in every interleaving of all threads, card and server: a thread pops the client of its oldest open message, reads the value of that message there, and writes to free clients only |
| `Pipeline.EachClientGetsItsMessages` | multiclientRecvVsPoll.cpp:81-85 | in every run client j of a thread was sent exactly messages j, j + n, j + 2n, ... below i, in order, and gave back those below `done` |
| `PipelineProgress.EveryRunCompletes` | multiclientRecvVsPoll.cpp:69-126 | every run can be continued until each thread has sent its share and read every answer, together as many as there are messages |
| `Credits.CreditAvailable` | transports/MulticlientRDMARecvTransport.cpp:38-39 | with closed-loop clients an arriving write always finds a posted receive |
| `Credits.StepKeeps` | transports/MulticlientRDMARecvTransport.cpp:23-77 | accepting, sending, arriving, polling, replacing, delivering and refusing keep the invariant |
| `Credits.CreditsAreConserved` | transports/MulticlientRDMARecvTransport.cpp:23-77 | between operations posted receives plus unpolled completions equal the accepted connections, also after calls that threw; an arriving write always finds a receive |
| `Credits.CallsNameTheirSenders` | transports/MulticlientRDMARecvTransport.cpp:58-77 | the k-th call of `receive` throws if and only if the k-th message to arrive is longer than its maximum, and otherwise returns the client that sent it |
| `Credits.ReceiveGetsThrough` | transports/MulticlientRDMARecvTransport.cpp:58-77 | a call gets through whenever a message has arrived that was not taken |

## Left out

- Device, queue pair, memory registration, sockets and mapping calls: foreign calls, represented by the assumptions above.
- TCP, domain-socket and connection-manager transports: thin wrappers over system calls.
- The distinct-memory-region transport: a weaker variant of the doorbell protocol that adds nothing to it.
- Objects other than `RDMAMessageBuffer`, the transport loops and the polls: the virtual ring, the shared ring, the completion queue pair, the multi-client servers and the client threads are step systems on values, because their peers act between any two of their memory accesses; what is not captured is aliasing between the fields of one object.
- `RdmaTransport::readSome`: throws for requests near the buffer size; no claim is made about it.
- Back-off while waiting, benchmark drivers, random numbers and timing.
- Per-connection signalling of the multi-client servers (one signal in 1024 answers, polled at once) and answers of 512 bytes and more, which share one send buffer without being inline.
- The receive queue that shares its event channel with the send queue: it is never waited on by these rings.
- The doorbell server's exception for an oversized request: the bell is already cleared, so the request is lost; the model has no such requests.
- Connection ids: `receiverId > connections.size()` admits one invalid id; the model uses valid ids only.
- The initial value of `cachedRemoteRead` of the shared ring, which the code leaves uninitialised, is taken to be 0.
- `VirtualRingBuffer::send` and `receive` with more bytes than the ring, and zero-copy sends whose callback writes more than the ring before the size is checked.
- A size argument within 16 of 2^64, for which the frame size itself would wrap around.
- Chunk loops over a ring of 16 bytes or less: the chunk size would be 0 or wrap around, so larger rings are required.
- Doorbell.ExactlyOnce: answers are placed atomically; `Answers` says exactly what byte-wise placement would allow. A request of the maximum size, whose echo the server refuses to send, is not issued.
- Connecting the clients and waiting until all threads are connected; which server slot a client gets is taken to follow its number, since slots are interchangeable.
- Transport.Ring.Receive: the ring is the ordered queue of messages that `VirtualChannel` is proved to be; polling is modelled there.
- AsWritten.NoRoomBreaksTheStream: calls of length 0, which copy nothing.
- MessageBuffers.MessageBuffer.Receive: one pass of the polling loop over a ring at rest; polling a ring that changes meanwhile is the subject of `Inbox` and `Channel`.
- MessageBuffers.MessageBuffer.Send: completion waits are not part of the object, they are modelled in `Signalling`.
