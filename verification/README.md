# A verified model of the Cyphal stack

This project models the hard parts of the Go port of the Cyphal stack in Dafny and proves what they
are for. The algorithms that the port runs step by step are modelled twice: as functions on values,
about which the properties are proved, and as methods and classes with the port's own fields, loops and
in-place updates, which are proved equal to those functions. `dafny verify dfyconfig.toml` checks it all.

**CAN transfer layer.** `Crc16`, `CanFrame` and `CanSpool` hold the transfer CRC, the CAN ID layouts, the
frame parser and the two spoolers. `CanSession` is the receiving session, with one slot per priority, as a
step function; `CanReassembly` is the same session with slots and buffers on the heap. `CanLanes` shows that
the priorities of a session do not disturb each other, `CanAdmission` which transfers a session lets in when they are
repeated or come in on several interfaces, `CanRoundTrip` that the spoolers and the receiver undo
each other, `CanProvenance` where a delivery came from and exactly which small corruptions its CRC lets pass.
`TxPipeline` is the transmission queue with its three indices, cursors and reference-counted frames, `TxUrgency` and
`TxDrain` what an ejection sends first, `TxOrder` what whole runs put on the bus, `TxQueue` the queue updated in place.
`CanAliases` says which frames reach a session, also of the other protocol generation. `CanBus` and `CanEndToEnd` join
the two ends: what leaves whole in any run of the queue is what the application at the other end sees, unless messages
of the two generations clash; `CanClash` says exactly when that is.
`AcceptanceFilter` fuses filters, `NodeOccupancy` watches node-IDs.

**Session layer.** `Bitmaps` is the multiword shift, `Wrapping` the 64-bit counter arithmetic. `DedupWindow`
is the suppression of duplicate reliable messages up to the subscribers' gate, `Reordering`, `ReorderingGaps` and
`ReorderingState` the in-order delivery buffer, `ResponseHeader`, `ResponseAck` and `ResponseRecord` the requester's
record of responses.

**Topic allocation.** `Primes`, `TopicAllocation` and `TopicNode` are the subject probing, the recursive
eviction and the gossip handlers of one node; `Ages` and `GossipConvergence` the agreement between nodes.

**UDP, trees, scheduling, names.** `Crc32Table`, `Crc32`, `UdpFrame`, `UdpReassembly` and `UdpSession`; `AvlTree` and
`AvlMap`; `Scheduler` and `SchedulerQueue`; `PatternMatch`. `Wire`, `Arith` and `Sets` hold shared types and facts
about division and finite sets.

Machine integers are modelled where their width matters: tags and sequence numbers wrap at 2^64, transfer-IDs
at 2^5 or 2^48, the CRCs and CAN IDs are bit vectors, and the conversion of a distance to a signed number is
written out. A 64-bit word of a bitmap is the sequence of its bits. Clock readings, draws of the random
generator, answers of the driver and of subscribers, and what a callback does are parameters.

## Where the code does less than it says

- The first toggle is to tell the two protocol generations apart (`tx.go:198`). The other frames of a transfer tell
  nothing: `rx.go:39-40` reads each in both ways, and `canard.go:130-135` hands on both readings. A node that publishes
  in both generations can therefore have a frame of the one taken into a transfer of the other.
  `CanAliases.OtherGeneration` says exactly which frames reach a foreign session, `CanClash.IntactIffClashFree` exactly
  which messages must not be published by one node, `CanClash.SubjectIsSwallowed` gives an input.
- `cy/udp/platform.go:130-131` speaks of a checksum of the whole payload up to each frame. The receiver looks at the
  first one only (`cy/udp/platform.go:170`), so that a payload corrupted behind the first datagram is delivered
  corrupted: `UdpReassembly.CorruptedTransfer` says exactly when, `UdpReassembly.LaterByteUnchecked` gives inputs.
- Offsets are said never to overlap (`cy/udp/platform.go:385-386`), but nothing looks: overlapping datagrams count
  twice, and `UdpReassembly.OverlapCompletes` gives an incomplete transfer that is delivered.
- `cy/cy.go:1085-1087` removes whatever the index holds at a topic's old subject. When a displaced topic is
  reallocated that is the fresh entry of the topic that displaced it, so the winner of a collision is missing from
  the index on return, although `cy/consensus_internal_test.go:221-231` expects each topic at its own slot.
  `TopicAllocation.IndexedIffUnopposed` says exactly when, on the state before the call,
  `TopicAllocation.WinnerLosesItsEntry` gives an input for every modulus.
- A new topic starts at the subject of counter 0 (`cy/topic.go:101`), so that the same lines remove the entry of the
  topic that holds this subject before it is looked for. Creation never arbitrates, and two topics share a subject:
  `TopicAllocation.ApartIffFree` says exactly when, `TopicAllocation.NewTopicShares` gives an input for every modulus.
- `cy/olga/scheduler.go:183` resets the key of a cancelled task to (0, 0), which names the first task of a
  scheduler if that is due at time 0. `Scheduler.CancelIsExact` says exactly when a second cancellation is
  harmless, `Scheduler.SecondCancelHitsAnother` gives an input.
- `cy/cavl/tree.go:273-309` promises the removed node. The node handed back is still in the tree exactly if it had
  two children (`AvlMap.Map.Delete`), and then carries the successor's key (`AvlMap.DeleteHere`);
  `AvlMap.DeletedNodeStays` gives an input. `cy/cavl/tree.go:174-175` promises the old node when the key is known;
  exactly then nothing is handed back (`AvlMap.Map.Insert`).
- The reordering buffer (`cy/reliable.go:586-596`) takes a tag more than 2^63 - 1 past the baseline for a backward
  restart even if it is the next one: `Reordering.NextRestartsIff` says exactly when, `Reordering.NextTagRestarts` gives
  a run, of 2^63 - 8 arrivals. No run of fewer than 2^58 events gets there (`Reordering.ShortRunsGoOn`). The model
  follows the code, and such a restart begins a new turn of `Reordering.DeliveredOnceInOrder`.
- A duplicate does not refresh the lifetime of a remote's window (`cy/cy.go:483-485`), so that a remote which only
  repeats itself is forgotten: `DedupWindow.DuplicatesAreExact` says exactly when, `DedupWindow.ForgottenDuplicate` gives
  an input.
- A spin promises the clock sampled at its end (`cy/olga/scheduler.go:76-77`). When it empties the queue it reports the
  clock before the last callback, or 0 (`cy/olga/scheduler.go:222-226`): `Scheduler.SpinClock` says which
  clock it is, `Scheduler.SpinClockLags` gives inputs.
- The worst lateness of a spin is said to be negative or zero when every task ran on time
  (`cy/olga/scheduler.go:73-75`). It is never negative (`cy/olga/scheduler.go:220`): `Scheduler.WorstIsGreatest`.

## Model

| member | source | states |
|---|---|---|
| Crc16.BuildTable | crc.go:12-24 | The table the initializer's nested loops build holds, at every index, the remainder of eight division steps by 0x1021. |
| Crc16.AddLoop | crc.go:30-36 | The loop over the data computes the fold of the byte step. |
| Crc16.AddConcat | crc.go:30-36 | Adding two pieces one after the other is adding their concatenation, so a running CRC can be kept across frames. |
| Crc16.Residue | rx.go:250-283 | A stream followed by its own big-endian CRC leaves the constant residue, for every seed and stream. |
| Crc16.AddInjectiveInCrc | crc.go:26-36 | Different registers stay different over the same data: a difference is never forgotten. |
| Crc16.PairInjective | crc.go:26-28 | Two consecutive bytes are determined by the registers around them. |
| Crc16.BurstDetected | crc.go:26-36 | No error confined to one byte or two adjacent bytes leaves the CRC of a stream unchanged. |
| Crc16.AddOfFirstDifference | crc.go:26-36 | The CRC is linear: what an error in the first byte does to it depends on the error and the length alone. |
| CanFrame.TailRoundTrip | tx.go:78-91 | The tail byte gives back start, end, toggle and the five transfer-ID bits it was made of. |
| CanFrame.ParsedIsWellFormed | rx.go:23-121 | Every frame the parser lets through has the first toggle of its protocol version, fills all but a last frame, and is never an anonymous part of a longer transfer. |
| CanFrame.WireIdSource | canard.go:155-232 | The CAN ID a publishing call makes a node emit is a 29-bit one that carries the node-ID and the priority. |
| CanFrame.ReadCarried | rx.go:46-112 | The parser reads back kind, port, destination and source from any CAN ID that carries an address. |
| CanFrame.FrameRoundTrip | rx.go:23-121 | A data field with its tail byte, under a published CAN ID, is parsed as exactly the frame its sender meant, for all five address forms. |
| CanFrame.ParsedIsCarried | rx.go:23-121 | Nothing else is read: whatever the parser lets through, and is not anonymous, is under a CAN ID that carries its address and its source, and that source could have published there. |
| CanAliases.ChainReading | rx.go:23-121 | In whichever generation a frame of a spooled chain is read, its priority, transfer-ID, toggle and place in the chain come out as they were sent. |
| CanAliases.OwnGeneration | canard.go:140-148 | A frame read in the generation it was sent in goes to the sessions of the address it was sent to, and to no others. |
| CanAliases.OtherGeneration | rx.go:39-40 | A frame goes to a session of the other generation exactly if it is not the first of its transfer and its CAN ID reads as the address of that session. |
| CanAliases.LegacyOntoSubject | rx.go:64-78 | The frames of a legacy data type read as those of a 13-bit subject exactly if the type's top bit is clear and its low 13 bits are the subject. |
| CanAliases.SubjectOntoLegacy | rx.go:81-112 | The frames of a 13-bit subject read as those of a legacy data type exactly if the type is the subject plus 0x6000 and the sender is not node 0. |
| CanSpool.ClassicSizesAreExact | tx.go:94-99 | The size ceiling is the identity on every size up to the classic MTU, so that no padding is ever added, and never shrinks a size up to 64. |
| CanSpool.FillFrame | tx.go:137-188 | One pass of the spooling loop takes the next piece of payload and CRC, with the running CRC brought up to date. |
| CanSpool.Spool | tx.go:114-194 | The v1 spooler's loop builds exactly the chain that cuts payload and trailing CRC into frames of the MTU. |
| CanSpool.SpoolV0 | tx.go:197-242 | The legacy spooler's loop builds exactly the chain that cuts leading CRC and payload into classic frames. |
| CanSpool.PredictionIsExact | tx.go:349-355 | The frame count reserved before spooling is the length of the chain either spooler allocates, for every payload and MTU. |
| CanReassembly.RxSlot.AdvanceBy | rx.go:158-165 | The slot's buffer keeps what still fits of a payload; the count and the toggle move regardless. |
| CanReassembly.RxSession.SolveAdmission | rx.go:312-321 | The in-place admission test equals the admission predicate, of which CanAdmission says what it lets in. |
| CanReassembly.RxSession.CleanUp | rx.go:217-233 | The loop over the priorities drops exactly the slots that outlived their patience and counts the rest. |
| CanSession.CleanupIsExact | rx.go:217-233 | A slot outlives a cleanup for 30 seconds, or for the transfer-ID timeout if that is longer, and stays as it was. |
| CanReassembly.RxSession.CompleteSlotAt | rx.go:250-283 | Completion checks the residue or the leading CRC, hands over the clipped payload or counts an error, and empties the slot. |
| CanReassembly.RxSession.UpdateWith | rx.go:285-374 | The whole in-place reaction of a session to a frame equals the session model's step, slots, admission record and outcomes included. |
| CanAdmission.StartsAreTakenIffNews | rx.go:312-374 | Over any run, on any interfaces and at any times: a start frame changes the session exactly if at least two of three hold against the last start that did. It has another priority or transfer-ID, it is on the same interface, it is more than the timeout later. One that does not gives no outcome. |
| CanAdmission.StartDropsTheStale | rx.go:357-371 | A start frame that opens a slot drops the other slots that have waited for more than 30 seconds and the timeout, and keeps the others; every other start frame keeps them all. |
| CanAdmission.RedundantInterfacesAreIgnored | rx.go:312-374 | However the frames of redundant interfaces mix, a session does what it does with those of its own interface alone, as long as what starts elsewhere is within the timeout of a start there. |
| CanAdmission.RepetitionIsIgnored | rx.go:312-374 | Once a priority has no transfer under way, any frames of it without news change nothing. |
| CanAdmission.RepeatedTransferDeliveredOnce | rx.go:312-374 | A transfer that comes in whole, and starts again within the timeout on whatever interface, is delivered once. |
| CanAdmission.RedundantTransferDeliveredOnce | rx.go:312-374 | A transfer that comes in whole on its own interface is delivered once, whatever mixes in on the others within the timeout. |
| CanLanes.AdmittedStep | rx.go:285-374 | An admitted frame acts on the slot of its own priority and leaves every other slot as it was. |
| CanLanes.SessionRemembers | rx.go:305-321 | After any run in which no start frame repeats the priority and transfer-ID of the one before, the session remembers exactly the transfer-ID, priority and time of the last start. |
| CanLanes.LanesAreIndependent | rx.go:217-374 | For any interleaving of novel, timely frames the session behaves, priority by priority, as if the frames of that priority had come alone. |
| CanRoundTrip.ChainParses | rx.go:23-121 | Every raw frame of a spooled chain reads as the parsed frame at the same place of the chain. |
| CanRoundTrip.TransferDelivered | rx.go:250-303 | Whatever occupied a priority before, a transfer whose frames arrive there in order leaves exactly one delivery of its clipped payload. |
| CanRoundTrip.InterleavedTransfersIntact | rx.go:217-374 | Any number of transfers per priority, frames of different priorities interleaved arbitrarily, are all delivered once, in order and intact. |
| CanRoundTrip.OneTransferPerPriority | rx.go:285-374 | With at most one transfer per priority, all within the cleanup window, nothing is asked of transfer-IDs or times: each is delivered once and intact, however the frames interleave. |
| CanRoundTrip.PollsChangeNothing | canard.go:111-119 | Cleanups that polls run between frames, within the window, leave the whole run as it is without them. |
| CanRoundTrip.ShortRunIsTimely | rx.go:217-233 | Runs that stay inside the cleanup window lose no slot to a cleanup. |
| CanRoundTrip.RoundTrip | tx.go:114-242 | For every payload, transfer-ID, MTU, extent of at least 1 and both protocol versions, the spooled frames fed to the parser and a new session give exactly one delivery: the same transfer-ID and priority, the whole payload if single-frame, its extent prefix otherwise. |
| CanProvenance.SlotsAreExplained | rx.go:285-374 | In every reachable state each slot holds precisely the frames of one trail: a start and its continuations with equal transfer-ID, interface and priority and alternating toggles. |
| CanProvenance.OutcomeHasProvenance | rx.go:250-303 | Every multi-frame outcome is the verdict on one such trail, ending with the frame that caused it and with no end frame before. |
| CanProvenance.CorruptionRejected | rx.go:250-283 | A stream that differs from a valid one in one byte, or in two adjacent ones, is rejected, exactly unless it is a legacy one and the two bytes straddle the end of its leading CRC, where the error in the payload changes the CRC by just the error in its high byte. |
| CanProvenance.SlippingPair | rx.go:250-283 | Every legacy transfer of eight payload bytes has such a pair, and is delivered with both bytes wrong. |
| TxPipeline.RetireKeepsInv | tx.go:319-338 | Retiring a transfer keeps the indices, the age list and the reference counts exact and frees its unshared frames. |
| TxPipeline.PublishKeepsInv | tx.go:386-436 | A publishing call, with expiry, sacrifice and enqueueing, keeps the whole queue invariant and the capacity. |
| TxPipeline.EjectKeepsInv | tx.go:438-465 | Sending until the driver refuses keeps the invariant, whatever the driver accepts or retains. |
| TxPipeline.LetGoKeepsInv | tx.go:59-76 | Releasing an outside reference keeps every frame's count equal to the cursors that reach it plus the outside holds. |
| TxPipeline.PurgeKeepsInv | tx.go:469-478 | Purging continuations keeps the invariant. |
| TxPipeline.ExpireIsExact | tx.go:372-384 | Expiry removes exactly the transfers whose deadline has passed and changes no other. |
| TxPipeline.SacrificeTakesTheOldest | tx.go:357-370 | Room is made at the expense of the oldest transfers only, and of the least number of them after which the frames fit, or of all if they never do. |
| TxPipeline.RoomCanBeMade | tx.go:357-370 | After the sacrifice a number of frames fits exactly if it fits the capacity beside the frames that are kept outside. |
| TxPipeline.OthersUntouched | tx.go:357-370 | The transfers that stay are as they were. |
| TxPipeline.PublishQueuesIff | tx.go:386-436 | A message for at least one interface is queued exactly if its frames fit the capacity beside those kept outside; it is then queued as given, with nothing sent on the interfaces asked for and nothing to send on the others. |
| TxPipeline.PurgeIsExact | tx.go:469-478 | A purge takes the multi-frame transfers that have begun to leave and changes no other. |
| TxPipeline.SetNodeIsExact | canard.go:68-77 | A change of the node-ID does so exactly if the number is another one. |
| TxUrgency.EjectSends | tx.go:438-465 | As many frames leave an interface as the driver takes, unless the interface runs out of them; what left before stays on record. |
| TxUrgency.MostUrgentFirst | tx.go:280-293 | Every frame that leaves is, at that moment, the first of its interface by CAN ID and then age, taken at its cursor under the current node-ID: no priority inversion. |
| TxUrgency.EjectTurns | tx.go:438-465 | Frames are offered one by one, up to the first that the driver refuses. |
| TxUrgency.KeptFramesAreHeld | tx.go:48-57 | The driver holds the frame it was offered once more exactly if it keeps it, taken or refused, and no other. |
| TxUrgency.RefusedFrameStays | tx.go:451-454 | A refused frame stays in the queue and its indices. |
| TxDrain.Drains | tx.go:438-465 | A transfer more urgent than all others of its interface leaves as fast as the driver takes its frames, is gone with the last one, and leaves the others as they were. |
| TxOrder.PurgeIsComplete | tx.go:469-478 | After a purge no queued multi-frame transfer has begun to leave. |
| TxOrder.StepKeeps | canard.go:68-119 | Every call keeps the queue consistent and the emission log sound. |
| TxOrder.RunsAreSound | tx.go:280-478 | Over every run of publishes, polls, backpressure, releases and node-ID changes: multi-frame transfers carry one source node-ID, frames leave each interface once, in chain order and without gaps, and transfers under one CAN ID leave in publishing order without interleaving. |
| TxOrder.RunsContinue | canard.go:68-119 | Every allowed call of a run can be made: the queue never reaches a state it cannot act on. |
| CanBus.RanIsTold | tx.go:386-465 | Over every run each frame that leaves is a frame of the chain of a message that was published, under its CAN ID bits; queued transfers keep the length and the bits of theirs. |
| CanBus.LaneIsChains | tx.go:280-478 | What leaves an interface under one node-ID, address and priority is a row of chains in publishing order, each from its first frame and broken off at most at its end. |
| CanEndToEnd.HearsLane | rx.go:23-121 | Parsing what a session hears, of whichever generation, sorts it by priority exactly as the publisher did. |
| CanEndToEnd.LaneOfHeard | rx.go:390-395 | Of one priority, what a receiver hears of its own address is all that left for it, in the order of the log. |
| CanEndToEnd.ForeignFramesAreRefused | rx.go:312-321 | Without a clash the frames of the other generation that reach a session change neither its slot nor its outcomes, however they interleave with its own. |
| CanEndToEnd.LaneDelivers | rx.go:285-374 | From such a row a priority of a session delivers exactly the messages that are whole, whatever was broken off between them. |
| CanEndToEnd.EndsIffWhole | tx.go:280-293 | In such a row the last frame of a message is there exactly if all its frames are. |
| CanEndToEnd.WhatLeftWholeIsDelivered | canard.go:122-148 | From publishing to delivery, over every run of the queue: a session is fed whatever the receiver reads as coming from the node to its address, frames of the other protocol generation included. Unless two messages clash, it lets the application see, priority by priority, exactly the messages sent to its address that left whole, each once, in publishing order and up to the extent. |
| CanClash.IntactIffClashFree | canard.go:122-148 | For any set of messages: over all runs that publish nothing but these, what left whole and what is seen agree exactly if no two of them clash. Two clash if they share priority and transfer-ID, have more than one frame each and more than four together, one is of the session's address, and the other, of the other generation, has a CAN ID that reads as it. |
| CanClash.MessageIsLost | rx.go:312-321 | A message of a clashing pair that is overtaken, after its first frame, by a more urgent one of three frames leaves whole and is not delivered, if it is longer than the frames that were mixed up. |
| CanClash.SubjectIsSwallowed | canard.go:166-210 | An input: more than 12 bytes on the 13-bit subject 341, overtaken by 13 to 19 bytes of the legacy data type 341 under the same transfer-ID, for every priority, payload and node-ID. |
| TxQueue.Queue.RefCountDec | tx.go:63-76 | Dropping a reference in place removes the frame and its place in the queue exactly with the last reference. |
| TxQueue.Queue.FreePayload | tx.go:319-329 | The loop over the cursors drops one reference per remaining frame and cursor. |
| TxQueue.Queue.RetireTransfer | tx.go:331-338 | Delisting a transfer in place equals the retirement of the queue model. |
| TxQueue.Queue.EnsureQueueSpace | tx.go:357-370 | The sacrifice loop equals the model's and reports whether the frames now fit. |
| TxQueue.Queue.ExpireBefore | tx.go:372-384 | The expiry loop over the deadline index equals the model's. |
| TxQueue.Queue.Push | tx.go:386-436 | Publishing in place equals the model's publish with the chain the v0 or v1 spooler really builds; the queue grows by the frames of that chain, for which the room was made by prediction, and stays within its capacity. |
| TxQueue.Queue.EjectPending | tx.go:438-465 | The ejection loop of an interface equals the model's, frame by frame. |
| TxQueue.Queue.PurgeContinuations | tx.go:469-478 | The walk over the age list equals the model's purge. |
| TxQueue.Queue.SetNodeId | canard.go:68-77 | Changing the node-ID purges the transfers under way before the new number is used. |
| AcceptanceFilter.OwnFramesAccepted | rx.go:397-430 | A frame the parser reads as the kind and port of a subscription, for everyone or for this node, matches that subscription's filter. |
| AcceptanceFilter.FuseCoversBoth | rx.go:432-435 | A fused filter lets through everything either of its parts did. |
| AcceptanceFilter.FuseIsLeast | rx.go:432-435 | A filter covers a fused one exactly if it covers both parts: no filter over both lets less through. |
| AcceptanceFilter.FuseBits | rx.go:432-435 | A fused filter compares exactly the bits that both parts compare and agree on. |
| AcceptanceFilter.RankCounts | rx.go:437-439 | The rank of a filter is the number of bits it compares. |
| AcceptanceFilter.OwnFilterIsExact | rx.go:397-430 | A subscription's own filter lets a published CAN ID through exactly if that is of its kind and port, for everyone or for this node. Of a v0 data type up to 3 only the low two bits count, of a v0 service type the low eight. |
| AcceptanceFilter.IsCovered | rx.go:441-449 | The loop reports whether some filter in the list lets through everything the given one does. |
| AcceptanceFilter.CoalesceInto | rx.go:451-479 | The two nested loops replace a pair whose fusion keeps the most mask bits of all pairs, the new filter among them. |
| AcceptanceFilter.Append | rx.go:481-488 | Whether or not there is room, everything covered stays covered and the new filter is covered too; each filter in the list is the least one over some of those put in, and with room just one of them. |
| AcceptanceFilter.Configure | rx.go:490-518 | After configuration every subscription and both heartbeats are covered, for any capacity of at least 1, each filter is the least one over some of those wanted, and with room for all each is a wanted one. |
| AcceptanceFilter.NothingLost | rx.go:490-518 | No frame of an installed subscription and no heartbeat is filtered out. |
| AcceptanceFilter.NothingMore | rx.go:490-518 | With room for all, a CAN ID is let through only if some wanted filter does. |
| NodeOccupancy.RanksNameFreeIds | canard.go:314-323 | A rank names a free ID exactly if it is below their number, it names one only, and every free ID has a rank: the draw reaches each exactly once. |
| NodeOccupancy.StaysHealthy | canard.go:300-332 | Whatever is drawn, bit 0 stays set and at least two IDs stay free, because the purge is certain when at most one is. |
| NodeOccupancy.ObservedIds | canard.go:305-332 | With at most 64 IDs taken all are kept, whatever is drawn; of more, all but 0 and the one seen are forgotten exactly if the draw modulo the number of free IDs is 0, or none is free. |
| NodeOccupancy.FewAreRemembered | canard.go:300-332 | Over any run that sees at most 63 different IDs all of them stay taken, and a node that has to move avoids them all. |
| NodeOccupancy.Identity.NthFree | canard.go:316-323 | The two scanning loops end inside the bitmap on exactly the z-th free ID. |
| NodeOccupancy.Identity.Observe | canard.go:300-332 | One observation: what is ignored, the IDs that are kept, and on a collision the free ID the draw names, in 1..127 and other than the colliding one. |
| NodeOccupancy.Identity.SetNodeID | canard.go:68-77 | A valid, different ID is adopted and the observation starts afresh. |
| Bitmaps.BitmapShift | cy/reliable.go:401-466 | In place, for every word count, bit count, direction and amount, the array becomes the shift of its bit sequence. |
| Bitmaps.BitmapShiftLeft | cy/rpc.go:107-138 | The three-word shift moves 192 bits up, and does nothing for a negative amount. |
| DedupWindow.CommitRecognises | cy/reliable.go:372-396 | The frontier stays if the tag is less than 512 behind it, else it is the tag; then a tag is recognised exactly if it is the new one, or was recognised and is still within 512 of the frontier, wrapping included. |
| DedupWindow.KnownForAMinute | cy/cy.go:467-507 | A remote is known for a minute after the last message that was taken; what was not taken, or is a duplicate, does not count. |
| DedupWindow.DuplicatesAreExact | cy/topic.go:303-340 | Over any history with wrapping tags, a tag is reported as duplicate exactly if it was taken and has stayed in the window of a remote that was never forgotten since. |
| DedupWindow.ForgottenDuplicate | cy/cy.go:478-486 | One tag at 0, 40 and 80 seconds is shown, recognised, and shown again, although the remote was never silent for a lifetime. |
| DedupWindow.TakenOnce | cy/cy.go:467-507 | While that holds, the tag is acknowledged and not shown to the subscribers again. |
| DedupWindow.DedupState.Test | cy/reliable.go:372-378 | The bitmap test equals the test on the abstract window. |
| DedupWindow.DedupState.Record | cy/reliable.go:381-396 | Marking or shifting the eight words in place equals the commit of the abstract window. |
| DedupWindow.Gate.DeliverReliably | cy/cy.go:467-507 | The gate in front of the subscribers: new state, acknowledgement and delivery for every combination of known remote, staleness, subscription and acceptance. |
| Reordering.PushKeepsInv | cy/reliable.go:577-648 | Every push keeps the buffered keys in (last + 1, last + 16], the timer at the head's deadline, and the deliveries in order. |
| Reordering.ScanKeepsInv | cy/reliable.go:544-572 | So does a scan, forced by the expired timer or not. |
| Reordering.RefusedIffLate | cy/reliable.go:577-596 | A tag is refused exactly if it is not ahead of the last delivered one but not far enough behind it for a restart. |
| Reordering.PushKept | cy/reliable.go:577-648 | A refused tag changes nothing; an accepted one adds exactly one entry, delivered or waiting, unless that tag is waiting already. |
| Reordering.AcceptedIsKept | cy/reliable.go:577-648 | Over any run of arrivals and expiries, what was delivered or waits is exactly what was accepted. |
| Reordering.DeliveredOnceInOrder | cy/reliable.go:507-667 | Over any run no delivery repeats and none is still waiting, and between backward restarts the delivered tags move forward in 64-bit serial order, each less than 2^63 + 8 ahead of the one before, across forward resequencing and wrap. |
| Reordering.TurnIffWrapped | cy/reliable.go:586-596 | A push counts as a backward restart exactly if it is accepted with a distance of 2^63 or more from the baseline; an expiring window never does. |
| Reordering.NextRestartsIff | cy/reliable.go:586-596 | The next expected tag is always accepted, and is taken for a backward restart exactly if the last delivered one lies 2^63 - 1 past the baseline. |
| Reordering.NextTagRestarts | cy/reliable.go:586-596 | A run of 2^63 - 8 arrivals in order and without a gap, after which the next one is taken for a restart. |
| Reordering.ShortRunsGoOn | cy/reliable.go:577-648 | In any run of fewer than 2^58 arrivals and expiries the next expected tag is accepted without a restart. |
| ReorderingGaps.GapsAreForced | cy/reliable.go:577-648 | Over any run, two deliveries in sequence within a turn differ by exactly 1, unless in between a window has ended or a tag has come that is more than 16 ahead of the last delivered one. |
| ReorderingGaps.BurstIsDelivered | cy/reliable.go:577-648 | With nothing waiting, the n next tags, up to 16 and short of the restart of Reordering.NextRestartsIff, come in any order with any repetitions while no window ends: each is delivered once, in order, with the message that came first for it, and nothing is left. |
| ReorderingGaps.Unforced | cy/reliable.go:577-648 | A push within the window delivers nothing but what directly follows the last delivered tag. |
| ReorderingGaps.ExpiryClosesOneGap | cy/reliable.go:544-572 | The end of a window delivers the head of the line and what directly follows it, and no more. |
| ReorderingGaps.TimerWatchesHead | cy/reliable.go:555-566 | The timer is armed exactly while something waits, and ends one window after the arrival of the head of the line. |
| ReorderingGaps.FarTagsEndWindows | cy/reliable.go:596-599 | A tag far ahead does what it does after the least number of windows have ended that makes it fit, or after all have. |
| ReorderingGaps.FarTagWaits | cy/reliable.go:622-648 | If nothing waits, a tag far ahead is not delivered: it waits in the middle of a new window. |
| ReorderingState.State.MinSlot | cy/reliable.go:513-521 | The walk over the slots finds the least key. |
| ReorderingState.State.ScanSlots | cy/reliable.go:544-566 | The scanning loop equals the model's scan and ends. |
| ReorderingState.State.PushMessage | cy/reliable.go:577-648 | The in-place push equals the model's push, its verdict included; the sliding loop ends. A disposed subscriber refuses the message and is notified of nothing. |
| ReorderingState.State.Destroy | cy/reliable.go:651-673 | Tearing down delivers what waits, or drops it silently; nothing stays armed. |
| ResponseAck.PromotionIsInvisible | cy/rpc.go:185-233 | The inline form of a single responder answers exactly as the per-responder form it is promoted to. |
| ResponseAck.NeverTwice | cy/rpc.go:185-233 | In any run no response is handed to the application twice, across promotion and window shifts. |
| ResponseAck.TruthfulIffTame | cy/rpc.go:216-219 | For any 64-bit number the marks stay truthful exactly if the frontier moves by less than 2^63 or only the frontier bit is set. |
| ResponseAck.UnseenIsAccepted | cy/rpc.go:185-233 | Over any run a response is handed over exactly when it arrives for the first time and is within 192 of the largest number of its responder. |
| ResponseAck.AckMeansHanded | cy/rpc.go:185-233 | Over any run a response is acknowledged exactly when it is within 192 of the largest number, and then the application has it or gets it now. |
| ResponseAck.TestMeansHanded | cy/rpc.go:165-180 | After hand-off the record vouches for exactly the recent responses that arrived, all of which the application has. |
| ResponseAck.AlwaysTruthful | cy/rpc.go:185-233 | Over any run of responses a header can carry, every mark stands for a response that was handed over. |
| ResponseAck.NeverFaults | cy/rpc.go:165-180 | After any such run no test indexes outside the marks. |
| ResponseHeader.Marshal | cy/header.go:307-320 | The overlapping writes leave exactly the header, with six bytes of the number. |
| ResponseHeader.HeaderRoundTrip | cy/header.go:307-355 | What is sent is read back, but for the bits of the number beyond the 48th. |
| ResponseRecord.RemoteMarks.Admit | cy/rpc.go:211-233 | The per-responder admission with its three words in place equals the model's. |
| ResponseRecord.RemoteMarks.Test | cy/rpc.go:165-180 | The signed index arithmetic of the test, its fault included, equals the model's. |
| ResponseRecord.RequestAck.Admit | cy/rpc.go:185-233 | The whole in-place admission, inline slot and map of responders, equals the model's. |
| ResponseRecord.RequestAck.Test | cy/rpc.go:165-180 | The test of a handed-off record equals the model's. |
| Primes.IsPrimeU32 | cy/types.go:139-152 | Trial division by odd numbers up to the quotient decides primality. |
| Primes.EuclidsLemma | cy/types.go:154-161 | A prime that divides a product divides a factor: why the modulus must be prime. |
| TopicAllocation.AllocateKeepsIndex | cy/cy.go:1080-1147 | Every index entry stays truthful: an unpinned topic at its own subject. |
| TopicAllocation.NoneMovesTwice | cy/cy.go:1080-1147 | Along one call the displaced topics strictly fall in the order of the arbitration, so no topic moves twice; the recursion ends. |
| TopicAllocation.MovesStart | cy/cy.go:1080-1147 | The topic named in the call starts at the counter asked for, a displaced one at the counter after its own. |
| TopicAllocation.MovesAreFinal | cy/cy.go:1080-1147 | Where a topic stops in the course of a call is where it is on return: its counter, its subject, pinned or not. |
| TopicAllocation.OthersStay | cy/cy.go:1080-1147 | Topics outside the chain are unchanged. |
| TopicAllocation.AdoptsUnlessBeaten | cy/cy.go:1080-1147 | The topic takes the counter asked for exactly if it does not lose that subject to another; otherwise a larger one. |
| TopicAllocation.IndexedIffUnopposed | cy/cy.go:1080-1147 | On return the topic named in the call is indexed exactly if, in the state before, the first counter at which it does not lose is below the pinned range and finds no other topic at its subject. |
| TopicAllocation.WinnerLosesItsEntry | cy/cy.go:1085-1087 | For every modulus above 1, two topics created without a collision and a raised counter, after which the winner of the collision is missing from the index: the loser's recursive call deletes its entry. |
| TopicAllocation.CreationIsUnopposed | cy/cy.go:851-898 | Creation never arbitrates. A pinned topic takes the subject its name asks for and stays out of the index; another one takes the subject of counter 0 and its entry, because the call first deletes whatever entry is there, and its holder keeps the subject. |
| TopicAllocation.ApartIffFree | cy/cy.go:851-898 | From a state in which every unpinned topic is found at its own subject, creation leaves unpinned topics on different subjects, each found there, exactly if the new one is pinned or nobody is indexed at the subject of counter 0. |
| TopicAllocation.NewTopicShares | cy/topic.go:101 | For every modulus, two topics created one after the other on a new node that hold the same subject. |
| TopicAllocation.SubjectsAreDistinct | cy/topic.go:154-165 | For a prime modulus p the counters 0..(p-1)/2 give pairwise different subjects. |
| TopicAllocation.ProbesMoveByOddSteps | cy/topic.go:154-165 | Probing starts at the hash and moves on by 1, 3, 5 and so on, modulo p, above the pinned range. |
| TopicAllocation.EveryMoverSettles | cy/cy.go:1080-1147 | While less than half of the subjects are taken, every topic that moves is unpinned on return, within p counters of where it started and at the subject of its counter. |
| TopicNode.Node.Allocate | cy/cy.go:1080-1147 | The recursive in-place reallocation equals the model's, topics and index. |
| TopicNode.Node.CreateTopic | cy/cy.go:851-898 | Creating a topic in place, pinned or not, equals the model's creation, deleted entry included. |
| TopicNode.Topic.SetOriginAt | cy/topic.go:248-252 | The age comes back as it was given. |
| TopicNode.Topic.MergeLageAt | cy/topic.go:257-263 | Merging makes the age the larger of the two. |
| TopicNode.Topic.UpdateState | cy/topic.go:272-279 | The older topic wins, ties go to the larger counter, judged on the age before the merge. |
| TopicNode.Node.OnGossipKnownTopic | cy/gossip.go:315-344 | The local claim becomes the join of both claims exactly unless the remote counter leads to a subject an older local topic holds. |
| TopicNode.Node.OnGossipUnknownTopic | cy/gossip.go:351-365 | A colliding topic is reallocated exactly if the remote one wins. |
| Ages.Log2FloorIsFloor | cy/types.go:120-122 | The result k is the one with 2^k <= x < 2^(k+1). |
| Ages.LageRoundTrip | cy/types.go:127-136 | On -1..35 the two age conversions undo each other. |
| Ages.MergedAgeIsMax | cy/topic.go:257-263 | Pulling the origin back to a remote age makes the age the maximum of both. |
| GossipConvergence.MergeIsJoin | cy/gossip.go:315-344 | The merge of a topic whose new subject is free is the lexicographic maximum of (log-age, evictions). |
| GossipConvergence.TopicState.Merge | cy/crdt.go:161-190 | So is the merge of the replicated table, which reports whether anything changed. |
| GossipConvergence.HoldsGreatest | cy/crdt.go:161-190 | In every run, with delayed, repeated and relayed gossip, each replica holds exactly the greatest first claim that has reached it. |
| GossipConvergence.SameGossipSameState | cy/gossip.go:295-344 | Replicas reached by the same claims agree, in whatever order, number and by whatever route they came. |
| Crc32.Residue | cy/udp/platform.go:68-71 | Data followed by its own CRC-32C always leaves 0x48674BC7. |
| Crc32.ByteDetected | cy/udp/platform.go:112-118 | Changing a single byte of any data changes its CRC-32C. |
| Crc32.ResidueIff | cy/udp/platform.go:68-71 | Four bytes behind any data leave the residue exactly if they are its CRC-32C. |
| Crc32Table.EntryIsRemainder | cy/udp/platform.go:75-108 | Each of the 256 literals of the lookup table is the remainder of eight division steps by the polynomial. |
| Crc32.Compute | cy/udp/platform.go:112-118 | The loop with the literal table computes the CRC-32C of the data. |
| UdpFrame.SerializeHeader | cy/udp/platform.go:132-141 | The overlapping little-endian writes leave exactly the header's fields and checksum. |
| UdpFrame.FrameRoundTrip | cy/udp/platform.go:146-174 | Every frame the sender makes passes all checks and gives back its header and payload. |
| UdpFrame.ReadIff | cy/udp/platform.go:143-174 | A datagram is read as a frame exactly if it is the frame's header, with any flags in the five bits nobody looks at and its own checksum, before the frame's payload, which stays inside the transfer and, at offset 0, has the announced checksum. |
| UdpFrame.CorruptionRefused | cy/udp/platform.go:170-172 | With another payload of its length behind an intact header, a datagram is refused exactly if it is the first of its transfer and the checksum of the payload is another one; otherwise it is taken as it came. |
| UdpFrame.ByteRefusedIff | cy/udp/platform.go:146-174 | One wrong byte in a datagram is noticed exactly if it is in the header or the datagram is the first of its transfer. |
| UdpReassembly.SendTransfer | cy/udp/platform.go:798-821 | The loop sends one datagram per chunk of the payload, each with the CRC of the prefix it completes. |
| UdpReassembly.DatagramsParse | cy/udp/platform.go:146-174 | Every datagram of a transfer passes the receiver's checks. |
| UdpReassembly.DeliveriesMoveForward | cy/udp/platform.go:312-383 | Whatever arrives, the number of each transfer delivered from one sender is the one before it plus at least 1 and less than 2^47, modulo 2^48. |
| UdpReassembly.GreaterIsSteps | cy/udp/platform.go:314-317 | A number is ahead of another exactly if it is reached from there by less than 2^47 steps, and at least one, around the 48-bit circle. |
| UdpReassembly.DeliveredOnce | cy/udp/platform.go:351-403 | Any order of a transfer's datagrams with any repetitions delivers it exactly once, byte for byte, as soon as every datagram came, and not before. |
| UdpReassembly.CorruptedTransfer | cy/udp/platform.go:170-172 | A transfer whose payload is changed on the way is delivered as it came exactly if all its datagrams came and the checksum of the first one still holds; else nothing is delivered. |
| UdpReassembly.LaterByteUnchecked | cy/udp/platform.go:170-172 | Any byte behind the first datagram, changed to any other, is delivered changed. |
| UdpReassembly.OverlapCompletes | cy/udp/platform.go:371-377 | Two datagrams of two bytes each, at offsets 0 and 1, complete a transfer of four bytes, of which the last never came. |
| UdpSession.InsertionSort | cy/udp/platform.go:393-398 | The in-place sort orders the offsets and keeps them. |
| UdpSession.Reassemble | cy/udp/platform.go:387-403 | The fragments are joined in the order of their offsets. |
| UdpSession.RxSession.AcceptStateful | cy/udp/platform.go:351-383 | The in-place session step equals the model's, delivery included. |
| AvlTree.BalanceKeeps | cy/cavl/tree.go:82-171 | Rotations and rebalancing change neither order nor contents, for any total order. |
| AvlTree.BalanceRestores | cy/cavl/tree.go:146-171 | From subtrees at most two apart rebalancing restores exact heights and balance, losing at most a level. |
| AvlTree.FindIsLookup | cy/cavl/tree.go:238-251 | Searching sees exactly the finite map. |
| AvlTree.InsertIsUpdate | cy/cavl/tree.go:188-219 | Insertion keeps search order, heights and balance, and is the update of the map; it reports exactly the new keys. |
| AvlTree.DeleteIsRemoval | cy/cavl/tree.go:270-309 | Deletion keeps them too, and removes exactly the key, successor replacement included. |
| AvlTree.SizeIsFibonacci | cy/cavl/tree.go:1-6 | A tree of height h has at least Fib(h + 3) - 1 nodes. |
| AvlTree.HeightFitsInt8 | cy/cavl/tree.go:65-73 | With fewer than 2^62 nodes every height fits eight signed bits. |
| AvlMap.Node.RotateRight | cy/cavl/tree.go:82-111 | The relinking of child pointers equals the rotation of the value. |
| AvlMap.Node.RotateLeft | cy/cavl/tree.go:114-143 | Likewise to the left. |
| AvlMap.Node.Balance | cy/cavl/tree.go:146-171 | The in-place rebalancing equals that of the value. |
| AvlMap.DeleteHere | cy/cavl/tree.go:287-307 | Deleting a node in place; with two children it carries the successor's key afterwards and is still one of the nodes of the tree, otherwise it is not. |
| AvlMap.Map.Insert | cy/cavl/tree.go:176-185 | The map of the whole tree is updated and the count stays exact; a new node is handed back, and nothing exactly if the key was known. |
| AvlMap.Map.Delete | cy/cavl/tree.go:260-267 | The key is gone from the map and the count stays exact; the node handed back is the one that had the key, and is still in the tree exactly if it had two children. |
| AvlMap.DeletedNodeStays | cy/cavl/tree.go:260-267 | Three keys, one of them deleted, and the node handed back is one of the two left in the tree. |
| AvlMap.Map.Get | cy/cavl/tree.go:223-230 | Lookup in the map. |
| Scheduler.ScheduleKeepsInv | cy/olga/scheduler.go:140-156 | Scheduling keeps every entry's key equal to its task's and adds just the new task. |
| Scheduler.RescheduleKeepsInv | cy/olga/scheduler.go:190-207 | So does rescheduling, which leaves the other tasks pending. |
| Scheduler.CancelIsExact | cy/olga/scheduler.go:173-184 | Cancelling removes just its task exactly unless that was cancelled before and a task with the key (0, 0) waits. |
| Scheduler.SecondCancelHitsAnother | cy/olga/scheduler.go:173-184 | Two tasks of a new scheduler, the second cancelled: cancelling it again takes the first one out of the tree. |
| Scheduler.SpinIsEarliestFirst | cy/olga/scheduler.go:217-253 | Whatever the callbacks do, each task that runs is due and the least (deadline, seqno) pending at that moment, and when a spin ends nothing pending is due at the last clock. |
| Scheduler.SpinClock | cy/olga/scheduler.go:217-253 | A spin that ends reports the clock read last: the one that told it to stop if a task still waits; with an empty queue the one before the last callback, or 0 if there was none. |
| Scheduler.SpinClockLags | cy/olga/scheduler.go:222-226 | A spin over one task, and one over none, that report a clock older than their end. |
| Scheduler.QuietSpinRunsWhatIsDue | cy/olga/scheduler.go:217-253 | With callbacks that leave the scheduler alone a spin ends and runs exactly the due tasks. |
| Scheduler.SpinReportsTheNext | cy/olga/scheduler.go:217-253 | A spin that ends reports the earliest deadline still pending, or the greatest number if nothing is. |
| Scheduler.WorstIsGreatest | cy/olga/scheduler.go:220-246 | The reported lateness is the greatest of all tasks that ran, or 0 if none was late. |
| SchedulerQueue.Queue.Schedule | cy/olga/scheduler.go:140-156 | The in-place operation equals the model's. |
| SchedulerQueue.Queue.Cancel | cy/olga/scheduler.go:173-184 | The in-place operation equals the model's. |
| SchedulerQueue.Queue.Reschedule | cy/olga/scheduler.go:190-207 | The in-place operation equals the model's. |
| SchedulerQueue.Queue.Spin | cy/olga/scheduler.go:217-253 | The loop equals the model's spin and reports the next deadline, the clock and the worst lateness. |
| PatternMatch.FirstIsMatch | cy/pattern.go:112-147 | Soundness: what the search finds expands to the topic. |
| PatternMatch.MatchIsFound | cy/pattern.go:112-147 | Completeness: when some expansion of the pattern is the topic, one is found. |
| PatternMatch.FirstIsShortest | cy/pattern.go:123-137 | Of all matches the one is found in which the first '>' takes the fewest segments, then the second, and so on. |
| PatternMatch.SubstitutionsRebuild | cy/pattern.go:99-103 | Putting the substitutions back into the pattern gives the topic's name. |
| PatternMatch.Substitutions.Search | cy/pattern.go:112-147 | The backtracking over the shared slice finds the first match and leaves its substitutions, one per wildcard in order. |
| PatternMatch.MatchSegments | cy/pattern.go:104-110 | True exactly when some expansion is the topic, with substitutions that rebuild it. |

## Left out

- Memory pools, out-of-memory paths, unsafe frame views and the frame registry: a frame is its transfer and its place in the chain.
- The total size of a slot (`rxSlot.totalSize`) is unbounded here; in the port it wraps after 4 GiB in one transfer.
- Extent 0 for v1 subscriptions, which the documentation rules out and which faults on completion.
- The routing of frames to subscriptions and sessions through the root `cavl.go`: sessions are modelled one remote at a time, the trees of the queue as ordered sets.
- Sequence numbers of the transmission queue and of the scheduler are unbounded; the port's wrap after 2^64 insertions.
- The doubly linked age list of `list.go` is a sequence.
- Locks, goroutines, the blocking run loop, sleeping and wake-ups; every operation is one sequential step. `RunOnce` and `Clear` are easy variants of a spin.
- Scheduler.SpinIsEarliestFirst: a spin is given as many turns as clock readings; one whose callbacks keep scheduling due tasks has no end, as in the port.
- Parent links, `Next`, `Prev`, `Validate` and `DeleteNode` of the AVL tree; deletion leaves parent links stale, and rotations only write through them into nodes that are no longer in the tree or are linked again by their caller.
- The scheduler and the reordering buffer use finite maps where the port uses its AVL tree and Go maps.
- Reordering.AcceptedIsKept: callbacks that destroy the subscriber from inside a delivery are not modelled; disposal and tearing down are operations of their own.
- CanRoundTrip.PollsChangeNothing: the destruction of an idle session by a poll is not modelled; the next frame would meet a new session.
- CanEndToEnd.WhatLeftWholeIsDelivered: the session hears one interface of a redundant bus and no other publisher under the same node-ID; that start frames do not repeat and no cleanup drops a slot is asked of the arrivals.
- CanClash.IntactIffClashFree: says that the application sees something else than what left whole, not in which runs that costs a message; `CanClash.MessageIsLost` gives a family of those.
- Expiry of handed-off response records and the correlation of responses with futures.
- Topic readers and writers, gossip scheduling and diagnostics around an allocation; implicit subscriptions by gossip.
- TopicAllocation.EveryMoverSettles: assumes that the counters of indexed topics stay at least the modulus below the pinned range.
- That unpinned topics hold different subjects after any history: creation breaks it, exactly as `TopicAllocation.ApartIffFree` says; what later collisions repair is not stated.
- GossipConvergence.HoldsGreatest: ages are taken at one time and reallocation meets no local collision; what a collision does is in `TopicNode.Node.OnGossipKnownTopic`.
- Stateless UDP ports, sockets, endpoints and redundant interfaces; payloads of 4 GiB and more, whose size field the sender truncates.
- Hashing and the quality of the random generator: hashes are numbers, draws are inputs.
- Splitting and normalisation of names; the matcher starts from segments.
- DSDL support, the type tables, the adapters, the examples and the streaming stub.
