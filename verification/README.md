# RakNet sessions and NetherNet segments, verified

A Dafny model of the per-peer RakNet session of this repository (reliability, fragmentation, ordered
delivery, acknowledgement, retransmission, congestion window), of the wire formats it uses, of the managed
session on top of it, and of NetherNet message segmentation. `dafny verify dfyconfig.toml` checks it.

## How it is built

Code that changes state step by step is a class with the same fields, or a method with the same loops:
`Sessions.Session`, `Manager.ManagedSession`, `Ordering.OrderingChannels`, `Split.SplitAssembler`,
`AckQueues.AckQueue`, `Sliding.SlidingWindow`, `Wire.Buffer` with the encoders and decoders,
`Nethernet.Message`. Each method's contract gives its result and its whole effect in terms of a function or
relation on values; what the protocol promises is then proved about those values.

| file | what it holds |
|---|---|
| Sequence24, Ranges | 24-bit serial numbers (section 3.2 of RFC 1982 with 24 bits) and ranges of them |
| AckQueue, GapTracking | the merging queue of numbers to report; which numbers an arrival reports missing |
| Protocol, Codec, DatagramCodec, Wire | packets and datagrams, their bytes, and the encoders and decoders as they run |
| Ordering, Draining, Split | ordered delivery per channel; when draining a channel stops short; fragmentation and reassembly |
| Sliding, SentWindow, Congestion | the congestion window; the deque of unacknowledged datagrams read as a map; what a tick does to the window |
| Sending, Receiving | the two halves of a session as values, and the relation each operation is |
| SenderRuns, Stall | runs of a sending session with its window; when a sender gets stuck |
| Filtering | what the receiver's duplicate filter takes for a duplicate |
| Session, Packets, Lifecycle, Manager | the session and the managed session, as classes; the connection states as values, over runs |
| History, Delivery, Network | the messages a sender has queued, what a receiver can make of them, and two endpoints joined by a network |
| Reporting, Completeness, Loss | runs of the two endpoints: which numbers NACKs and ACKs name; when everything queued is delivered; and one in which a packet is not |
| Nethernet | segments and their accumulator |

`Network.System` is one direction of a connection: a sending half, a receiving half and a log of the bytes put
on the wire each way. A step queues a message, builds a datagram, lets any bytes ever sent arrive, ticks either
side, or lets a report arrive, so the network may lose, repeat, delay and reorder everything. The steps are
the relations the session's methods are proved to take. The other direction is the same system with the
roles exchanged; the halves share no state except ACKs embedded in user packets, which the system leaves out.
The hypotheses of its theorems are those of the protocol: fewer than 2^24 ordered messages a channel, at most
2^16 fragmented ones, messages below 4 GiB, fewer than 2^24 datagrams (2^23 datagrams in `Reporting`, and 2^23
ordered messages a channel in `Completeness`, where numbers are compared), an MTU from 56 to 8226 bytes (the negotiated ones are 576 to 1400), and no sequenced reliability.

## What came out differently from what one would expect

- Reliable packets can be lost. Each time the index it waits for arrives, the duplicate filter's marks come to
  stand for the index one further on, so it drops packets that never came, and their datagrams are acknowledged.
  From every fresh connection, four ordered messages whose datagrams arrive once each as 2, 0, 3, 1 are all
  handled and acknowledged, and the last is delivered to no one (`Loss.ReliablePacketIsLost`). The filter also lets
  repetitions of everything that came in order pass (`Filtering.InOrderFiltersNothing`). `Filtering.SeenExactly`
  says for every sequence of arrivals what is dropped, and `Completeness.EverythingIsDelivered` that without such
  drops, repetitions, refusals, timeouts and full heaps everything is delivered.
- Sequenced packets are queued without a sequence index, and the encoder refuses them: a built datagram encodes
  if and only if none of its packets is sequenced (`SenderRuns.EncodesInEveryRun`). The sending loop
  unwraps that error (raknet/src/transport/mux.rs:37-42).
- An ACK arrives whole if and only if it has at most 8192 records (`DatagramCodec.AckArrivesWhole`). From 8193 to
  65535 the decoder refuses it; at 65536 the 16-bit count is zero and it arrives as no records at all
  (`DatagramCodec.TruncatedCountDropsRecords`). A report built for an MTU of at most 16384 never gets there
  (`Receiving.ReportsAreAcceptable`).
- A wrapping range that does not merge needs two free slots in the ACK queue; with one, everything past the
  wrap is lost (`AckQueues.OneSlotKeepsOnlyTheTail`). A merging one needs a single slot; `AckQueues.PushCovers`
  and `AckQueues.PushIsUnion` give what is lost in every case.
- An ordering channel loses packets from 2050 distinct indices on, if they come in reverse
  (`Ordering.LongerCountdownLosesPackets`). In any order, all come out if and only if none that is ahead of the one
  waited for finds 2048 on the heap (`Ordering.ComesOutWholeExactly`).
- A packet that is on the heap twice when its channel gets to it leaves a copy behind
  (`Draining.SecondCopyBlocks`). While all indices stay within half the number space of that copy, nothing that is
  or comes on the heap is released any more: the channel passes on just the packets that arrive at the moment they
  are waited for (`Draining.BlockedForGood`). So 1, 1, 0, 3, 2 leaves 3 behind although it is the next one
  (`Draining.RepeatedPacketBlocksChannel`). A single drain leaves the packet it waits for on the heap if and only
  if something below it stays on top (`Draining.DrainStopsShort`).
- Bytes of datagrams given up by age or capacity are never taken off the in-flight count (`Stall.LostForGood`), so
  a sender can be stuck for good. While no acknowledgement can reach the slow-start threshold, as in a session
  that has never backed off or tracks nothing, it never builds a datagram again if and only if the window and one
  MTU for each tracked datagram exceed the lost bytes by less than 3 (`Stall.NeverBuildsAgainExactly`). Wherever
  the threshold is, it never does if that still holds with half an MTU added, and some run does if the window alone
  exceeds the lost bytes by 3 (`Stall.NeverBuildsAgainBounds`). Two sends and a tick past the timeout are enough to get there from
  a new session, at every MTU from 60 to 8226 (`Stall.FreshSessionCanStall`).
- `from_byte`/`to_byte` put the needs-B&AS flag at 0x04, which is bit 2; the comment beside them calls it bit 3.
  The model follows the code (raknet/src/protocol/constants.rs:95-96).
- A NetherNet segment count of 255 on a new message wraps the expected count to zero and the payload ends up in
  front of the next message (`Nethernet.WrappedCountCorruptsNextMessage`); `Nethernet.RunUnlessWrapped` says
  exactly when a returned message is a proper run. Arithmetic is that of release builds; a debug build panics.
- An empty NetherNet message is sent as a segment the decoder refuses (`Nethernet.MessageRoundTrip`).
- A session closed by a control packet can be reopened by a later one of the same datagram, because the loop over
  a datagram's packets does not look at the state (`Lifecycle.ReopenedInOneDatagram`; exactly when it ends closed:
  `Lifecycle.ClosedAfterAll`). Between operations closed is final (`Lifecycle.ClosedIsFinal`); every operation of
  `Manager.ManagedSession` is proved to move the state as its step in those runs does.

## Model

| member | source | states |
|---|---|---|
| Network.OrderedDeliveryInEveryRun | raknet/src/session/ordering_channels.rs:60-135 | at every moment of every run, what a channel has delivered is a prefix of what was queued on it; after a timed-out incomplete message was skipped, an in-order, repeat-free subsequence |
| Network.DeliveredWasQueued | raknet/src/session/inbound.rs:43-108 | whatever is delivered, ordered or not, carries the payload, ordering index and channel of a queued message |
| Network.AckSafetyInEveryRun | raknet/src/session/manager.rs:211-224 | in every run, a tracked datagram named by an ACK the sender holds arrived earlier and was handled without error |
| Network.NothingIsForgotten | raknet/src/session/inbound.rs:161-242 | in every run, a datagram with a reliable packet is handled by the receiver, still tracked, or was tracked before some tick that found it too old or too far behind and dropped it there |
| Network.ResentExactlyInEveryRun | raknet/src/session/tick.rs:7-23 | in every run, what a tick retransmits is exactly the tracked datagrams that survive its ACKs and cleaning and are NACKed or overdue; each stays tracked, due one RTO later |
| Network.TickSendsOnWire | raknet/src/session/outbound.rs:414-438 | in every run, a tick adds to the wire its retransmissions, each once and decoding to the datagram it was, and nothing else |
| Reporting.NacksAreTrueInEveryRun | raknet/src/session/mod.rs:212-274 | in every run, a number named by a NACK queued, on the wire or held by the sender was skipped by an earlier arrival, when it had not been handled |
| Reporting.HandledIsAcknowledgedInEveryRun | raknet/src/session/manager.rs:211-224 | in every run in which the ACK queue has room, a number is handled if and only if it is queued as an ACK or in a report already sent |
| Network.SettledLookup | raknet/src/session/inbound.rs:149-242 | the window after ACKs, cleaning and NACKs, as a map: which numbers go, which are hurried, which stay |
| Network.RunKeepsInv | raknet/src/session/mod.rs:134-156 | the invariant over both endpoints and the wire that all run theorems rest on |
| Network.HandledArrived | raknet/src/session/manager.rs:211-224 | a datagram counts as handled only through an arrival whose payload was handled without error |
| Completeness.EverythingIsDelivered | raknet/src/session/inbound.rs:16-108 | in every run in which each data datagram arrives at most once and every packet is handled with no refusal, no filtering, no full heap and no timeout: once all that was queued is sent and handled, each channel has delivered exactly what was queued on it |
| Completeness.ConservedInEveryRun | raknet/src/session/outbound.rs:45-119 | in every run, the packets on the heap and those in the datagrams built are together, with multiplicity, those of the messages queued |
| Loss.ReliablePacketIsLost | raknet/src/session/reliable_tracker.rs:22-75 | from every fresh connection, a run in which each datagram arrives once, all are handled and acknowledged, nothing waits anywhere, and one of four ordered reliable messages is not delivered |
| Delivery.ReceivedKeepsGood | raknet/src/session/inbound.rs:16-108 | one data datagram keeps the tie between everything the receiver buffers or delivers and the queued messages |
| Delivery.PrunesKeepsGood | raknet/src/session/tick.rs:12-17 | pruning keeps it too; delivery stays exact as long as nothing expires |
| Delivery.FragmentGood | raknet/src/session/split_assembler.rs:46-137 | a fragment of a queued message only completes or extends the entry of that same message |
| History.QueuedAt | raknet/src/session/outbound.rs:193-236 | an ordered message is queued under the index that is its place in its channel's queue |
| History.SplitIdsDistinct | raknet/src/session/outbound.rs:247-316 | up to 2^16 fragmented messages no two share a split id |
| History.QueuedOnce | raknet/src/session/outbound.rs:193-316 | every ordered packet and every fragment belongs to one message and is queued once |
| Ordering.PermutationComesOutInOrder | raknet/src/session/ordering_channels.rs:96-135 | up to 2049 distinct consecutive indices in any order, from any read index and across the wrap, come out exactly in index order, leaving an empty heap |
| Ordering.LongerCountdownLosesPackets | raknet/src/session/ordering_channels.rs:103-112 | from 2050 on the reversed order releases a single packet: the limit is exact |
| Ordering.PoppedIsConsecutive | raknet/src/session/ordering_channels.rs:122-135 | drained packets carry consecutive indices from the read index on, and no other element leaves the heap |
| Ordering.PoppedLeavesNoCopy | raknet/src/session/ordering_channels.rs:122-135 | with distinct indices nothing already released stays behind |
| Ordering.ComesOutWholeExactly | raknet/src/session/ordering_channels.rs:96-135 | a permutation of up to 2^23 indices comes out whole and in order if and only if none ahead of the one waited for finds the heap full |
| Draining.BlockedForGood | raknet/src/session/ordering_channels.rs:96-135 | over every run of offers with indices within half the number space of a stale element: it stays, the heap only grows, and exactly the packets waited for on arrival come out |
| Draining.SecondCopyBlocks | raknet/src/session/ordering_channels.rs:122-135 | a drain that releases an index held twice leaves the channel in that state |
| Draining.DrainStopsShort | raknet/src/session/ordering_channels.rs:122-135 | on a half circle, a drain leaves the packet then waited for on the heap if and only if the heap held a chain up to it and a stale index or a second copy below it |
| Draining.DistinctDrainsFully | raknet/src/session/ordering_channels.rs:122-135 | with distinct indices, none of them stale, a drain never leaves the packet waited for |
| Draining.RepeatedPacketBlocksChannel | raknet/src/session/ordering_channels.rs:96-135 | offering 1, 1, 0, 3, 2 releases 0, 1 and 2, and leaves 3 on the heap while the channel waits for 3 |
| Ordering.OrderingChannels.HandleOrdered | raknet/src/session/ordering_channels.rs:96-135 | offering a packet buffers it, drops it, or releases it and what follows it; other channels are untouched |
| Ordering.OrderingChannels.SkipIndex | raknet/src/session/ordering_channels.rs:60-94 | skipping the index waited for releases what follows it; any other index changes nothing |
| Ordering.OrderingChannels.Drain | raknet/src/session/ordering_channels.rs:125-135 | the drain loop ends with an empty heap or a top that is not the packet waited for |
| Ordering.OrderingChannels.NextOrderIndex | raknet/src/session/ordering_channels.rs:45-53 | hands out the channel's write index and advances it |
| Ordering.PeekTop | raknet/src/session/ordering_channels.rs:12-23 | the top is least whenever the indices lie in one half circle |
| Split.ReassemblyUnderAnySchedule | raknet/src/session/split_assembler.rs:46-137 | fragments in any order, repeated, mixed with any other packets: nothing comes out until the last missing part, then the whole message, and the entry is gone |
| Split.FragmentStep | raknet/src/session/split_assembler.rs:67-137 | one fragment: the message if it was the last missing part, otherwise one more part |
| Split.AddedKeepsSound | raknet/src/session/split_assembler.rs:63-112 | any packet keeps the received counter equal to the filled slots and the entries within the limit; the count-mismatch error only reports differing announced counts |
| Split.ChunksJoin | raknet/src/session/outbound.rs:247-316 | the pieces of a payload are non-empty, within the limit, and join to the payload |
| Split.ChunksCount | raknet/src/session/outbound.rs:247-316 | there are as many pieces as the announced count |
| Split.SplitAssembler.Add | raknet/src/session/split_assembler.rs:46-137 | takes exactly the step of the specification, errors included, and keeps the bookkeeping sound |
| Split.SplitAssembler.Join | raknet/src/session/split_assembler.rs:107-112 | concatenates the parts, or fails at a missing one |
| Split.SplitAssembler.Prune | raknet/src/session/split_assembler.rs:139-155 | removes exactly the expired entries and reports each one's channel and index once |
| AckQueues.PushCovers | raknet/src/session/ack_queue.rs:22-49 | what is covered after a push: what was, and the range but for what is lost, which is all of a non-merging range at a full queue and the part past the wrap at one free slot |
| AckQueues.PushIsUnion | raknet/src/session/ack_queue.rs:22-49 | a push makes the covered set the union if and only if there is room (one slot for a merging range, one for each record otherwise) or what is lost was covered already |
| AckQueues.OneSlotKeepsOnlyTheTail | raknet/src/session/ack_queue.rs:41-48 | with a single free slot a wrapping range that does not merge loses exactly its part past the wrap |
| AckQueues.PushSingletonIsSound | raknet/src/session/ack_queue.rs:22-49 | pushing one number never covers any other new number, full or not, wherever the endpoints lie |
| AckQueues.MergeIsUnion | raknet/src/session/ack_queue.rs:27-39 | merging by adjacency or overlap joins the two member sets exactly |
| AckQueues.PopSplitsCoverage | raknet/src/session/ack_queue.rs:53-67 | popping splits the covered set between what leaves and what stays |
| AckQueues.SortingKeepsCoverage | raknet/src/session/outbound.rs:121-173 | sorting a report by start covers the same numbers |
| AckQueues.SortedByStart | raknet/src/session/outbound.rs:121-173 | a permutation with ascending starts |
| AckQueues.AckQueue.Push | raknet/src/session/ack_queue.rs:22-49 | the queue becomes the specified one |
| AckQueues.AckQueue.PopForMtu | raknet/src/session/ack_queue.rs:53-67 | takes the longest prefix that fits the MTU, but at least one range |
| GapTracking.HistoryIsPartitioned | raknet/src/session/mod.rs:212-274 | over any arrivals within half the number space, every number below the read index was settled by one arrival: received in order, or reported missing once, before it had arrived |
| GapTracking.NaksAreTheSkipped | raknet/src/session/mod.rs:237-266 | what an arrival queues as NACKs are exactly the numbers it skips |
| GapTracking.ChunksPartitionGap | raknet/src/session/mod.rs:237-266 | the chunks are contiguous, disjoint, at most 8192 long, and cover exactly the gap |
| GapTracking.ReadIndexNeverMovesBack | raknet/src/session/mod.rs:212-235 | the read index never moves back and stays beyond every arrival |
| GapTracking.WrappedFollowsUnwrapped | raknet/src/session/mod.rs:212-235 | the 24-bit read index is the unwrapped one modulo 2^24 |
| SentWindow.InsertedIsMapUpdate | raknet/src/session/outbound.rs:350-374 | tracking is insertion into the map from numbers to datagrams |
| SentWindow.InsertedBytes | raknet/src/session/outbound.rs:350-374 | tracking adds the datagram's size, less that of an overwritten one |
| SentWindow.AckedIsMapRemoval | raknet/src/session/inbound.rs:161-178 | an ACK removes exactly its members; numbers outside the window change nothing |
| SentWindow.CleaningDropsOnlyExpiredOrOldest | raknet/src/session/inbound.rs:198-242 | cleaning drops only expired front entries and the oldest over capacity, keeps slot i numbered base+i, and ends within capacity with a live last slot |
| SentWindow.CleanedBytes | raknet/src/session/inbound.rs:198-242 | the bytes before cleaning are those kept and those dropped |
| SentWindow.NakedIsDue | raknet/src/session/inbound.rs:180-196 | a NACKed tracked datagram is due at once, unchanged |
| SentWindow.DueMembers | raknet/src/session/outbound.rs:396-412 | the datagrams to resend are exactly those of live slots whose time has come |
| SentWindow.DueWithinTracked | raknet/src/session/outbound.rs:396-412 | they never exceed the tracked bytes, so the budget excludes none |
| SentWindow.NoBytesNothingDue | raknet/src/session/tick.rs:18-23 | with no bytes due nothing is due, so the guard on the bandwidth excludes none either |
| SentWindow.SameDatagramsSameBytes | raknet/src/session/outbound.rs:414-438 | rescheduling leaves the tracked bytes as they were |
| Congestion.SendStaysWithinWindow | raknet/src/session/outbound.rs:45-119 | a tracked send leaves at most cwnd + 4 bytes in flight |
| Stall.NeverBuildsAgainExactly | raknet/src/session/outbound.rs:45-119 | while the tracked datagrams' acknowledgements stay below the slow-start threshold, no run from here ever builds a datagram again if and only if cwnd + MTU times tracked datagrams < lost bytes + 3 |
| Stall.NeverBuildsAgainBounds | raknet/src/session/sliding_window.rs:42-109 | for every sender: never again if cwnd + MTU times tracked datagrams (+ MTU/2 where the threshold can be crossed) < lost bytes + 3, and only if cwnd < lost bytes + 3 |
| Stall.ExhaustedForGood | raknet/src/session/tick.rs:7-33 | through any queuing, building, ticks, ACKs and NACKs a sender below that bound stays below it and builds nothing |
| Stall.LostForGood | raknet/src/session/inbound.rs:198-242 | over every run, the bytes in flight that no tracked datagram accounts for never become fewer |
| SenderRuns.RunKeeps | raknet/src/session/tick.rs:7-33 | every step of a run leaves a session from which every step can go on |
| Stall.StuckForGood | raknet/src/session/inbound.rs:198-242 | through any queuing, building, ticks, ACKs and NACKs a stuck sender stays stuck with the same window |
| Stall.FreshSessionCanStall | raknet/src/session/inbound.rs:198-242 | at every MTU from 60 to 8226, a new session is stuck after two sends and a tick past the timeout |
| Sending.WhenBuilt | raknet/src/session/outbound.rs:45-119 | some datagram can be built exactly when some packet fits the bandwidth, and none may come exactly when the heap is empty or some packet does not fit |
| Congestion.CreditedAll | raknet/src/session/inbound.rs:161-178 | crediting a tick's ACKs keeps the window sane and never shrinks it |
| Congestion.HoldsUpToMore | raknet/src/session/inbound.rs:180-196 | walking a NACK range finds a tracked datagram exactly when one of its numbers is tracked |
| Sliding.RunBounds | raknet/src/session/sliding_window.rs:38-125 | over every run of sends, ACKs, NACKs and resends: cwnd is at least the MTU, an ACK never shrinks it, the RTO is 2000 ms before the first sample and within 30 to 2000 ms after it |
| Sliding.AckNeverShrinks | raknet/src/session/sliding_window.rs:74-81 | an ACK never shrinks the window, not even crossing the slow-start threshold |
| Sliding.IdleWindowAdmitsMtu | raknet/src/session/sliding_window.rs:103-109 | with nothing in flight a full MTU may be sent |
| Sliding.SlidingWindow.OnAck | raknet/src/session/sliding_window.rs:42-82 | sample, in-flight count, block and window after an acknowledgement |
| Sliding.SlidingWindow.OnResend | raknet/src/session/sliding_window.rs:90-97 | one backoff to one MTU a block |
| Sliding.SlidingWindow.OnNak | raknet/src/session/sliding_window.rs:84-88 | lowers the threshold unless the block already backed off |
| Sending.QueueKeepsSendable | raknet/src/session/outbound.rs:197-316 | whatever the payload, every packet queued fits an empty datagram, has an exact bit length and encodes unless sequenced |
| Sending.BuiltDatagramFits | raknet/src/session/outbound.rs:45-119 | a data datagram fits the MTU with IP and UDP headers and takes packets off the heap |
| Sending.BuiltDatagramTravels | raknet/src/session/outbound.rs:45-119 | it encodes to exactly `size()` bytes and decodes to itself |
| Sending.BuildMakesProgress | raknet/src/session/outbound.rs:45-119 | a non-empty heap with bandwidth for one MTU always yields a datagram |
| Sending.NormalizedForSplit | raknet/src/session/outbound.rs:238-245 | fragments are sent reliably; ordered and sequenced are kept |
| Sending.ReliableBytesWithout | raknet/src/session/outbound.rs:98-119 | taking a packet off the heap takes exactly its size off the reliable bytes |
| Receiving.ReportsSplitCoverage | raknet/src/session/outbound.rs:121-173 | a report and what stays queued cover exactly what was queued |
| Receiving.ReportsAreAcceptable | raknet/src/session/outbound.rs:121-173 | a report never has more records than the decoder accepts |
| Filtering.SeenExactly | raknet/src/session/reliable_tracker.rs:22-75 | after any arrivals, an index is taken for a duplicate if and only if it is ahead within the window and an earlier arrival, marked ahead, was as many indices before it as expected ones came since |
| Filtering.NewIndexIsDropped | raknet/src/session/reliable_tracker.rs:22-75 | for an index that never arrived, likewise with at least one expected index since the mark |
| Filtering.ImmediateRepetition | raknet/src/session/reliable_tracker.rs:22-75 | an index let through is dropped when it comes again at once if and only if it was ahead within the window |
| Filtering.InOrderFiltersNothing | raknet/src/session/reliable_tracker.rs:22-75 | after arrivals in order no index is taken for a duplicate |
| Filtering.NewPacketIsLost | raknet/src/session/inbound.rs:43-108 | packets 2, 0 and 3 at a new receiver, each once: the third is accepted but neither buffered nor released |
| Sessions.Session.constructor | raknet/src/session/mod.rs:171-204 | a new session is empty, with the limits of its tunables |
| Sessions.Session.QueuePacket | raknet/src/session/outbound.rs:19-42 | queues one packet or all fragments, and returns exactly the reliable bytes added |
| Sessions.Session.EnqueueFragmentedEncaps | raknet/src/session/outbound.rs:247-316 | one fragment for each piece, with consecutive reliable indexes and one split id and ordering index |
| Sessions.Session.SplitPayload | raknet/src/session/outbound.rs:263-312 | cuts the payload into the announced number of pieces and leaves nothing over |
| Sessions.Session.BuildDataDatagram | raknet/src/session/outbound.rs:45-96 | takes a building step with the window's bandwidth and RTO; the reliable bytes leave the heap with the packets; the window is charged when the datagram is tracked |
| Sessions.Session.FillDatagram | raknet/src/session/outbound.rs:98-119 | moves packets while they fit bandwidth and MTU, and loses none |
| Sessions.Session.TrackSentDatagram | raknet/src/session/outbound.rs:350-374 | tracks the datagram at its number and charges the window; in-flight bytes stay the tracked sizes plus the dropped ones |
| Sessions.Session.ProcessDatagramSequence | raknet/src/session/mod.rs:212-274 | the number is offered to the ACK queue, the gap before it to the NACK queue, and the read index moves |
| Sessions.Session.ReportGap | raknet/src/session/mod.rs:237-266 | the chunk loop ends and queues exactly the chunks of the gap |
| Sessions.Session.ChunkEnd | raknet/src/session/mod.rs:245-252 | a chunk ends after 8192 numbers or at the end of the gap |
| Sessions.Session.HandleDataPayload | raknet/src/session/inbound.rs:16-31 | handles packets in order up to the first error, and which error: the assembler's for that packet, or a payload that does not decode |
| Sessions.Session.HandleEncapsulated | raknet/src/session/inbound.rs:43-108 | filter, reassemble, order, decode; fails exactly when the assembler refuses or something released does not decode |
| Sessions.Session.HandleOrdered | raknet/src/session/mod.rs:277-288 | decodes what the channel released; an error loses the rest |
| Sessions.Session.DecodeAndPush | raknet/src/session/inbound.rs:110-147 | unknown ids become user data without the id byte; embedded ACKs and NACKs are queued |
| Sessions.Session.ProcessIncomingAcks | raknet/src/session/inbound.rs:161-178 | empties exactly the acknowledged slots, credits each once, cleans, and accounts for every byte dropped |
| Sessions.Session.AcknowledgeOne | raknet/src/session/inbound.rs:161-178 | empties the slot of one number and credits its size and round trip |
| Sessions.Session.ProcessIncomingNaks | raknet/src/session/inbound.rs:180-196 | makes exactly the NACKed tracked datagrams due and backs off once |
| Sessions.Session.CleanSentDatagrams | raknet/src/session/inbound.rs:198-242 | base and deque after cleaning, and the bytes given up |
| Sessions.Session.CollectResendableDatagrams | raknet/src/session/outbound.rs:396-412 | the numbers of all due datagrams, in order; the budget excludes none |
| Sessions.Session.ResendDatagrams | raknet/src/session/outbound.rs:414-438 | sends and reschedules exactly those, and backs off if there are any |
| Sessions.Session.Retransmit | raknet/src/session/tick.rs:18-23 | resends all that is due whatever the bandwidth guard says |
| Sessions.Session.PruneSplits | raknet/src/session/tick.rs:12-17 | drops expired messages and skips their ordering indexes |
| Sessions.Session.BuildAckDatagram | raknet/src/session/outbound.rs:121-146 | one ACK datagram with the longest fitting prefix, sorted, or none |
| Sessions.Session.BuildNakDatagram | raknet/src/session/outbound.rs:148-173 | likewise for NACKs |
| Sessions.Session.OnTick | raknet/src/session/tick.rs:7-33 | the whole new state: ACKs, cleaning, NACKs, pruning, retransmission and reports in this order, the window, and the bytes given up |
| Manager.ManagedSession.QueueAppPacket | raknet/src/session/manager.rs:151-193 | refuses exactly by state, packet kind and channel; otherwise queues, counting reliable bytes exactly |
| Lifecycle.ClosedAfterAll | raknet/src/session/manager/control.rs:70-208 | the packets of a datagram leave a session closed if and only if a closing one has no reopening one after it, or it was closed and none reopens |
| Lifecycle.LastDecidingPacketWins | raknet/src/session/manager/control.rs:70-208 | the state after a datagram is the one its last deciding packet calls for |
| Lifecycle.ReopenedInOneDatagram | raknet/src/session/manager.rs:197-234 | a disconnection followed by a new incoming connection in one datagram leaves the session connected |
| Lifecycle.BecomesLive | raknet/src/session/manager.rs:197-234 | a session becomes live exactly by a datagram, when not closed, whose last deciding packet opens it |
| Lifecycle.LiveWasOpened | raknet/src/session/manager.rs:197-234 | over every run of operations, a live session was opened by a datagram and not closed since |
| Lifecycle.ClosedIsFinal | raknet/src/session/manager.rs:197-234 | over every run of operations, a session once closed stays closed |
| Lifecycle.TickIsOperation | raknet/src/session/manager/tick.rs:14-33 | what a tick does to the state is the tick of those runs |
| Lifecycle.ArrivalIsOperation | raknet/src/session/manager.rs:197-234 | what a datagram does to the state is the arrival of those runs |
| Lifecycle.PreparedIsWithinLimit | raknet/src/session/manager/tick.rs:14-78 | before the session below ticks, the managed session is closed or within its queue limit |
| Manager.ManagedSession.HandleDatagram | raknet/src/session/manager.rs:197-234 | payload before number: a payload that fails is never acknowledged, and which error; ACKs and NACKs are handed on; activity, state and replies follow the packets handled, in order |
| Manager.ManagedSession.BuildDatagram | raknet/src/session/manager.rs:238-255 | one building step, charging the window for a tracked datagram, with the reliable-byte count exact |
| Manager.ManagedSession.DebitReliableBytes | raknet/src/session/manager/tick.rs:80-86 | takes exactly the reliable sizes off; the subtraction never saturates |
| Manager.ManagedSession.FlushData | raknet/src/transport/mux.rs:37-42 | building until none comes terminates; the result is the chain of building steps taken, the last one yielding none |
| Manager.ManagedSession.HandleControlPacket | raknet/src/session/manager/control.rs:70-208 | for each control packet and role, the whole status (state, times, ping nonce, remote guid, disconnect reason) and the packet queued in answer |
| Manager.ManagedSession.StartClientHandshake | raknet/src/session/manager/control.rs:19-53 | only an open client session starts, with a connection request |
| Manager.ManagedSession.SendDisconnect | raknet/src/session/manager/control.rs:56-68 | an open session announces the reason and is closing |
| Manager.ManagedSession.EnforceQueueLimit | raknet/src/session/manager/tick.rs:70-78 | above the limit the session is closed, and only then |
| Manager.ManagedSession.OnTick | raknet/src/session/manager/tick.rs:14-33 | the whole new state: idle time, ping and queue limit first, with the packets these queue, then the session's tick on the result, whose datagrams go out |
| Codec.EncapRoundTrip | raknet/src/protocol/encapsulated_packet.rs:59-171 | decoding undoes encoding exactly on packets with the fields their header calls for and an exact bit length, whatever follows |
| Codec.EncapLength | raknet/src/protocol/encapsulated_packet.rs:29-57 | the encoding is as long as `size()` |
| Codec.HeaderRoundTrip | raknet/src/protocol/types/encapsulated_packet_header.rs:44-71 | every header survives its byte |
| DatagramCodec.DataDatagramRoundTrip | raknet/src/protocol/datagram.rs:33-107 | a data datagram decodes to itself, consuming every byte, exactly when its flags are data flags and all packets are canonical |
| DatagramCodec.AckRoundTrip | raknet/src/protocol/ack.rs:89-131 | at most 8192 records decode to the wrap-split ranges, covering the same numbers, in exactly `size()` bytes |
| DatagramCodec.AckArrivesWhole | raknet/src/protocol/ack.rs:89-131 | any ACK decodes to its wrap-split ranges if and only if these are at most 8192 records, and is refused if and only if the low 16 bits of their number exceed 8192 |
| DatagramCodec.TruncatedCountDropsRecords | raknet/src/protocol/ack.rs:89-121 | 65536 records arrive as none |
| DatagramCodec.AckDatagramRoundTrip | raknet/src/protocol/datagram.rs:33-94 | an ACK datagram arrives as its wrap-split records |
| DatagramCodec.NakDatagramRoundTrip | raknet/src/protocol/datagram.rs:33-94 | a NACK datagram arrives as its wrap-split records |
| SenderRuns.EncodesInEveryRun | raknet/src/session/outbound.rs:45-119 | in every run that starts with nothing queued, a built datagram encodes if and only if no packet in it is sequenced |
| Sending.BuiltEncodesUnlessSequenced | raknet/src/session/outbound.rs:45-119 | the same of one building step, for packets without a sequence index |
| Sending.QueueLeavesSequenceIndexOut | raknet/src/session/outbound.rs:197-316 | queuing leaves the sequence index out of every packet |
| Wire.EncodeEncap | raknet/src/protocol/encapsulated_packet.rs:60-112 | writes exactly the specified bytes, or fails at the first missing field |
| Wire.DecodeEncap | raknet/src/protocol/encapsulated_packet.rs:114-171 | reads exactly what the specification reads |
| Wire.EncodeAck | raknet/src/protocol/ack.rs:90-106 | counts and writes the records of all ranges |
| Wire.DecodeAck | raknet/src/protocol/ack.rs:108-121 | reads the announced records, or refuses too many |
| Wire.EncodeDatagram | raknet/src/protocol/datagram.rs:33-51 | writes exactly the specified bytes |
| Wire.DecodeDatagram | raknet/src/protocol/datagram.rs:53-94 | reads packets until the buffer is empty, or a report by its flags |
| Wire.DatagramSize | raknet/src/protocol/datagram.rs:96-107 | the loop computes `size()` |
| Wire.AckSize | raknet/src/protocol/ack.rs:123-131 | the loop computes `size()` |
| Ranges.ForEachSequenceInRange | raknet/src/session/inbound.rs:244-256 | visits each member of the cyclic interval once, in order, and stops; the ACK and NACK walks use it |
| Ranges.SplitPartitions | raknet/src/protocol/ack.rs:50-69 | a wrapping range is split into two that do not wrap and partition it |
| Ranges.AllRecordsCover | raknet/src/protocol/ack.rs:89-106 | the records sent cover exactly the ranges |
| Sequence24.CmpIsForwardDistance | raknet/src/protocol/types/sequence.rs:35-63 | a > b exactly when b reaches a in fewer than 2^23 steps; at exactly half the circle each is less than the other |
| Sequence24.CmpMatchesIntegers | raknet/src/protocol/types/sequence.rs:46-63 | within half the circle the order, minimum and maximum are those of the unwrapped integers |
| Sequence24.WindowOrder | raknet/src/protocol/types/sequence.rs:46-63 | on any half circle the order is linear, by distance from its start |
| Sequence24.OrderIsCyclicOutsideTheWindow | raknet/src/protocol/types/sequence.rs:46-63 | beyond it three numbers can form a cycle |
| Sequence24.AddDistanceInverse | raknet/src/protocol/types/sequence.rs:35-95 | adding an offset and measuring a distance undo each other |
| Sequence24.DistanceIsDifference | raknet/src/protocol/types/sequence.rs:35-43 | the distance is the difference of the unwrapped integers modulo 2^24 |
| Nethernet.StreamRoundTrip | nethernet/src/protocol/message.rs:25-161 | any list of non-empty messages up to 2550000 bytes, split, encoded, decoded and fed to one accumulator, comes out as it went in |
| Nethernet.MessageRoundTrip | nethernet/src/protocol/message.rs:25-161 | one message survives exactly when it is not empty and at most 255 full segments long; longer ones are refused |
| Nethernet.MessagesAreRuns | nethernet/src/protocol/message.rs:76-111 | on any stream, a returned message is the payloads of the latest segments, counts running down to zero, after some of count 255 |
| Nethernet.MessageIsContiguousRun | nethernet/src/protocol/message.rs:76-111 | with counts up to 254 it is exactly a contiguous run k, k-1, ..., 0 |
| Nethernet.RunUnlessWrapped | nethernet/src/protocol/message.rs:78-83 | it is such a run if and only if it does not begin with a count of 255, or begins with one that 254 follows |
| Nethernet.WrappedCountCorruptsNextMessage | nethernet/src/protocol/message.rs:78-83 | the two-segment stream on which it is not |
| Nethernet.ResetAfterOutcome | nethernet/src/protocol/message.rs:86-110 | an error or a completed message leaves the accumulator as new |
| Nethernet.Message.AddSegment | nethernet/src/protocol/message.rs:76-111 | the accumulator takes exactly the specified step |
| Nethernet.Message.SplitIntoSegments | nethernet/src/protocol/message.rs:121-161 | at most 10000 bytes a segment, counted down; the byte countdown never underflows and ends at 0 |

## Left out

- The order in which packets leave the outgoing heap: `get_next_weight` and priorities. Which packet is on top is left open, and no result depends on it.
- `Ordering.PeekTop`: `BinaryHeap` is a bag whose top is least when the indices lie in one half circle; with wider spreads the comparison is not transitive and nothing is promised.
- That a run gets to the point where everything is sent and handled: fairness of the network and the timing of ticks.
- The 64-bit `usize` of byte counters and the saturating addition on them; counters are unbounded here.
- Rounding of `f64` in the congestion window; `Sliding` uses reals. Times are natural numbers of milliseconds, and `Instant::now` is the `now` given to `QueueAppPacket`.
- Control-packet bodies, addresses, MOTD and the packet registry: the encoder and decoder of user and control packets are function parameters (`Packets.Registry`).
- ACKs embedded in user packets (id 0xc0) in `Network`; `Session.DecodeAndPush` does model them.
- Corruption of datagrams by the network, sockets, tasks, timers and channels.
- `handle_generic_control_states` never sees a packet kind that its predicates accept, so it changes no state and is not modelled separately.
- `SlidingWindow::on_packet_received` and `on_send_ack` do nothing.
- The pre-allocation of buffers and the sharing of datagrams by reference counting.
- NetherNet signaling, discovery, encryption and WebRTC transport.
