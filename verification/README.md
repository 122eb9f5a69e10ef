# Verified models of the QoF engines

QoF is a passive flow meter. It decodes packets, reassembles IPv4 fragments, assigns packets to
bidirectional flows, measures TCP loss and round-trip time per flow, and exports one record per
flow. This project models the stateful engines behind that and proves what they promise over
whole runs.

Each engine appears twice: as a mathematical description of what it should compute, and in the
form the program has (classes with mutable fields, arrays, loops), with every method proved
against the description.

| engine | description and theorems | mutable form |
|---|---|---|
| flow table | FlowKeys, Segments, FlowMachine, FlowInvariant, FlowHistory, FlowRuns, FlowTheorems, FlowConservation, FlowExpiry, FlowLabels, FlowReasons | FlowTable |
| TCP sequence gaps | SeqSpec, SeqLoss, SeqExact, SeqCells, SeqOverflow | SeqTracker |
| fragment table | FragSpec, FragMachine, FragRuns, FragExpiry, FragLedger | FragTable |
| pickable queue | Queues | PickableQueue |
| circular bitmap | BitmapSpec, Words, BitCount | Bitmap |
| prefix map | Bitwise, IntervalMap | PrefixMap4, PrefixMap6 |
| packet ring | RingSpec | PacketRing |
| leaky bucket | LeakyBucket | LeakyBucket |
| statistics and round-trip time | Widths, StreamStat | StreamStat, RoundTrip |
| header walk | HeaderWalk | HeaderWalk |

## Main results

- Flush-schedule independence: while the flow limit never fires and writes succeed, what the flow
  table exports does not depend on when it is flushed; it is the greedy split of each conversation
  at timeouts, counter overflow and TCP close. A limit above the number of conversations never fires.
- Conservation: in every reachable state every accepted packet and octet is counted in exactly one
  active flow, closed flow, written record or record whose write failed.
- Coherence: index, active queue, close queue and counters agree in every reachable state, and
  looking only at the tail of a queue expires exactly what a full scan would.
- The loss counted by the eight-cell gap stack is, octet by octet, what never arrived and what
  arrived only in segments that did not account for it, plus what splits of the lowest cell count
  twice; so it never under-counts, and a connection in sequence counts none. The 32-bit number
  returned is that count exactly as long as it is below 2^32.
- Reassembly completes exactly with the last tile missing since the last completion, in any order
  and with duplicates; late duplicates of all tiles complete the datagram again. After an
  accepted packet no node has waited thirty-five seconds since its last fragment.
- Flow ids name conversations and the end reason of every flow is true, over every run; after a flush
  call no flow has rested for idle_ms and five seconds.
- The bitmap counts every position ever set exactly once, down to the parallel bit count.
- The prefix array is in address order exactly when the prefixes are disjoint, and then lookup
  agrees with lookup in the list of prefixes.
- Ring slots are held by one side at a time in every run that makes plain adds only while the
  producer holds no reservation, plain removals only while the consumer holds none, and forced adds
  only while the producer holds none and the consumer either holds none or leaves room to spare.
  Up to calls that are refused the guards are exact: after breaking one, waits alone can bring a
  slot into both hands, unless a forced add took it at once.
- The leaky bucket conforms to its rate in every window without a random drop, although a full
  bucket's drop leaves its clock behind; a random drop lets the time before it drain twice. A first
  packet as large as the capacity blocks it for good.
- Streaming mean and deviation are those of the whole sample; the smoothing is exact if and
  only if no sum leaves 32 bits, and then lies between the least and the greatest sample.
- Header fields and lengths, and the payload length derived from them, are those of the bytes on the
  wire.

## Reading the model

- Glib's hash table is a map from key representatives to flows. Queues are sequences of keys from
  tail to head; that the intrusive links represent such a sequence is proved in PickableQueue.
- A flow carries `hist`, the packets it absorbed. No step reads it; theorems use it to say which
  packets a counter stands for.
- `room` in a flush call is the number of records the output accepts before the first failure.
  As a failure ends the call, that number covers every behaviour of the output.
- Clock values come with the packets. Times are unbounded milliseconds except where the source
  narrows them (the signed 32-bit reverse delay, 64-bit sums, 32-bit round-trip clocks).
- `Sorter` is any function that returns a sorted permutation.
- In SeqTracker the ghost argument `s` is the unbounded sequence number of a segment. Its window
  condition is that of section 3.2 of RFC 1982: all live edges within half the number space.
- Bit operations of the prefix masks are defined on natural numbers; those of the bitmap use
  64-bit words.
- In the ring -1 stands for the null pointer. A wait is modelled at a moment when it does not have
  to wait on; other threads' steps before that are other calls.
- In HeaderWalk `Beyond` marks inputs for which the source's capture length would wrap below zero
  or a header field is read past the capture; `HeaderWalk.BeyondIsMalformed` says exactly when.
- `unlucky` in LeakyBucket is the outcome of the random drop; `Widths.ToInt` stores an integer in a
  signed 32-bit variable.

Where code and comments differ, the model follows the code:

- src/qofrtt.c:113 says that echoed timestamps minimise the delay; the code keeps the larger one.
- src/qofseq.c:130 prepares to continue with a second gap; the seek before it makes that
  unreachable, so a segment touches at most one gap (`SeqLoss.FillExact` says what that costs).
- src/qofseq.c:156-158 splits a gap; in the last cell there is no cell for the lower half and the
  write is treated as dropped (`SeqLoss.FillLedger` states the resulting excess).
- src/qofseq.c:75 moves one cell more than the array has, which is then overwritten; it is modelled
  as a plain shift.
- src/ring.c:276 is the body of the function that include/qof/ring.h:104 declares as rgaWaitHead.
- src/qofifmap.c:207 moves overlapping memory with memcpy; it is modelled as a shift.

## Model

| member | source | states |
|---|---|---|
| FlowKeys.CanonDecidesEquality | src/yaftab.c:268-304 | two keys are equal for the index (VLAN priority and CFI bits ignored) if and only if their representatives are, so a map over representatives is the hash table |
| FlowKeys.ReverseIsOpposite | src/yaftab.c:317-342 | the reversed key exchanges source and destination address in both IP versions, exchanges the ports if and only if the protocol is neither ICMP nor ICMPv6, and keeps protocol and VLAN tag; up to the index no other key is opposite |
| FlowKeys.ReverseLaws | src/yaftab.c:317-342 | reversing a key twice gives it back, reversal commutes with the choice of representative, both directions name one conversation |
| FlowKeys.ConvClasses | src/yaftab.c:268-342 | two keys belong to one conversation if and only if they are equal or opposite, field by field |
| Segments.SummaryGrow | src/yaftab.c:882-929 | how the record of a run of packets changes when one more packet joins: end time, reverse delay, counters of the right direction and nothing else |
| Segments.SegmentBounds | src/yaftab.c:862-929 | a run that no packet breaks lasts at most active_ms, has packets at most idle_ms apart, starts with a forward packet, counts every packet once, and in silk mode stays within 32-bit octet counters |
| Segments.ClosedOnlyAtEnd | src/yaftab.c:938-945 | the TCP history ends a run only at its last packet |
| Segments.ReverseDelayIsFirst | src/yaftab.c:882-885 | the reverse delay is the delay of the first backward packet through a signed 32-bit field; stime + rdtime is that packet's time if and only if the delay is below 2^31 ms |
| Segments.LongReverseDelay | src/yaftab.c:882-885 | with idle and active timeouts of at least 2^31 ms, which the 32-bit products at src/qofconfig.c:989-990 allow, a first backward packet 2^31 ms after the start joins the flow, and stime + rdtime lies before the start |
| Segments.FinGrow | src/yaftab.c:799-815 | a FIN of a side is in the longer history if and only if it was there or the new packet carries it |
| Segments.AckGrow | src/yaftab.c:799-815 | an ACK later than the other side's FIN is in the longer history if and only if it was there, or the FIN was and the new packet acknowledges |
| FlowMachine.Find | src/yaftab.c:618-660 | lookup finds the flow of a conversation under either direction of the key, says which direction the packet runs, and fails if and only if neither direction is indexed |
| FlowInvariant.FinishedIsHistory | src/yaftab.c:799-815 | the FIN/ACK/RST state bits of a node are complete exactly when its packet history contains an RST, or a FIN from each side and a later ACK of each |
| FlowInvariant.BreakIsTimeout | src/yaftab.c:862-880 | the code's active, overflow and idle tests on node fields are together the rule that a packet may not join a run |
| FlowInvariant.PacketCoherent | src/yaftab.c:831-946 | every packet keeps: index and active queue hold the same flows once each, no two with equal or mutually reversed keys, both counters equal the queue lengths, the queue is ordered by last activity, no active flow has finished, and every node is the summary of its packets |
| FlowInvariant.FlushCoherent | src/yaftab.c:1031-1113 | every flush call, whatever the output accepts, keeps the same invariant |
| FlowHistory.PacketHistories | src/yaftab.c:859-946 | a packet extends the last flow of its own conversation, or begins a new one, and touches no other conversation |
| FlowHistory.FlushHistories | src/yaftab.c:1057-1110 | no flush call changes which packets the flows of a conversation hold |
| FlowRuns.Run | src/yaftab.c:831-946 | every state reachable by any interleaving of packets and flush calls satisfies the coherence invariant |
| FlowRuns.FlowsPartitionPackets | src/yaftab.c:831-946 | in every run the flows of a conversation (exported, waiting, active), in order, hold each accepted packet exactly once and in order |
| FlowRuns.RestartIsBreak | src/yaftab.c:862-880 | the table starts a new flow exactly where the greedy split starts a new segment |
| FlowRuns.QuietRunsAreGreedy | src/yaftab.c:831-1113 | while no flush closes the table and the flow limit never fires, the flows of every conversation are the greedy split of its packets, however flush calls are interleaved |
| FlowRuns.ActiveBound | src/yaftab.c:618-686 | in every run the table holds at most one flow per conversation that was offered |
| FlowRuns.QuietWhenFew | src/yaftab.c:1063-1069 | the flow limit never fires when it is 0 or above the number of conversations in the run |
| FlowTheorems.ExportIsGreedySplit | src/yaftab.c:1057-1110 | after a closing flush whose writes succeed the records of each conversation are, in order, the summaries of the greedy split, and table and close queue are empty |
| FlowTheorems.FlushScheduleIndependence | src/yaftab.c:1031-1113 | two runs over the same packets with any two flush schedules export the same multiset of records, in biflow and in uniflow mode, while the flow limit never fires and writes succeed |
| FlowTheorems.HalvesOfPermutation | src/yaftab.c:1083-1102 | the uniflow split commutes with reordering of records |
| FlowTheorems.DrainEmpties | src/yaftab.c:1077-1110 | an export loop reports success exactly when no write failed, and then the close queue is empty |
| FlowConservation.Conservation | src/yaftab.c:847-857 | in every reachable state offered packets = counted + rejected, and packet and octet statistics equal the counters summed over active flows, closed flows, written records and records whose write failed |
| FlowLabels.CountersAreSums | src/yaftab.c:918-925 | packet, octet, payload-packet and payload-octet counters of a direction are sums over its packets |
| FlowLabels.HalvesOfFlow | src/yaftab.c:959-1023 | the uniflow records of a flow: the forward packets under the first packet's key, and, if there are any, the backward packets under the opposite key, which is theirs |
| FlowLabels.PacketLabels | src/yaftab.c:859-945 | a packet that finds no flow opens one with the next id; one that its flow cannot take ends it as active, or else idle, and opens one with the same id, marked as continued only after an active end in silk mode; any other joins its flow; the flow it then has is closed at once if it ends the connection |
| FlowLabels.IdsNameConversations | src/yaftab.c:659-663 | in every run flow ids are positive and two flows with the same id belong to one conversation |
| FlowReasons.ReasonsAreTrue | src/yaftab.c:499-522 | in every run the end reason of each ended flow holds: its history closed the connection, a later packet of the conversation came too late or overflowed it, it rested longer than idle_ms, the table had reached its limit, or it was closed |
| FlowReasons.StatsOfRun | src/yaftab.c:1048-1105 | in every run the statistics count the records written, the exported flows without backward packets, the most flows ever active and the flush calls that scanned |
| FlowConservation.ExportsLoad | src/yaftab.c:959-1023 | splitting a biflow into uniflows keeps the packet and octet sums |
| FlowConservation.FlowBounds | src/yaftab.c:862-945 | in every run every flow respects the timeouts and counter limits, and is marked CLOSED exactly when its history ends the connection, which happens at its last packet; no active flow has such a history |
| FlowConservation.ReverseStartTime | src/yaftab.c:989-1023 | the backward uniflow starts at the first backward packet if and only if that packet is within 2^31 ms of the start, the sum being taken in 64 bits |
| FlowConservation.FlushBoundsQueue | src/yaftab.c:1042-1047 | a successful flush call leaves at most 2499 flows waiting |
| FlowConservation.PacketBoundsQueue | src/yaftab.c:831-946 | one packet closes at most two flows |
| FlowConservation.CloseQueueBound | src/yaftab.c:1042-1047 | n packets after a successful flush call at most 2499 + 2n flows wait for export |
| FlowExpiry.IdleIsPrefix | src/yaftab.c:1057-1061 | in a queue ordered by last activity, stopping at the first flow that is not idle finds exactly the flows a full scan finds |
| FlowExpiry.ExpiryIsFullScan | src/yaftab.c:1057-1069 | a flush that is not rate limited keeps exactly the flows not idle for longer than idle_ms, less the least recently active ones above max_flows, and says how many remain |
| FlowExpiry.FlushWhenDue | src/yaftab.c:1042-1052 | a flush call that is not closing, not the first, less than five seconds after the last scan and with fewer than 2500 flows waiting changes nothing and reports success; any other notes the time and counts itself |
| FlowExpiry.FlushIsFullScan | src/yaftab.c:1031-1113 | a flush call that is the first, comes five seconds or more after the last scan or finds 2500 flows waiting keeps exactly the flows not idle for longer than idle_ms less the least recently active ones above max_flows, whatever the output accepts |
| FlowExpiry.FlushedIsFresh | src/yaftab.c:1042-1061 | in every run, after every flush call each active flow has rested at most idle_ms if the call scanned, and less than idle_ms plus five seconds if it did not |
| FlowTable.Table.constructor | src/yaftab.c:533-579 | a new table is the empty state and coherent |
| FlowTable.Table.GetNode | src/yaftab.c:618-686 | finds the flow under either direction or opens one with the given or a fresh id; nothing else changes |
| FlowTable.Table.CloseFlow | src/yaftab.c:499-522 | moves one flow from index and active queue to the head of the close queue with its end reason |
| FlowTable.Table.TickFlow | src/yaftab.c:476-485 | moves a flow to the head of the active queue, or leaves it there |
| FlowTable.Table.PlacePacket | src/yaftab.c:859-880 | continues, restarts or opens the packet's flow as the specification step does |
| FlowTable.Table.AbsorbPacket | src/yaftab.c:882-945 | accounts the packet and closes or moves the flow as the specification step does |
| FlowTable.Table.PBuf | src/yaftab.c:831-946 | one packet on the mutable table is one packet step of the state machine, keeping the invariant |
| FlowTable.Table.CloseIdle | src/yaftab.c:1057-1061 | the tail-only loop closes exactly the flows that a full scan calls idle |
| FlowTable.Table.CloseExcess | src/yaftab.c:1063-1069 | the tail loop closes exactly the least recently active flows above the limit |
| FlowTable.Table.ExportClosed | src/yaftab.c:1077-1110 | the export loop drains the close queue as the specification does, up to the first write that fails |
| FlowTable.Table.FlushTable | src/yaftab.c:1031-1113 | one flush call on the mutable table is one flush step of the state machine, keeping the invariant |
| SeqSpec.FillStack | src/qofseq.c:99-174 | a fill keeps the gaps non-empty, strictly descending, separated and below nsn |
| SeqSpec.SegmentStack | src/qofseq.c:196-234 | every segment keeps the gap stack well formed and below the next expected number |
| SeqSpec.SkipGivesUp | src/qofseq.c:80-97 | a segment beyond nsn gives up the lowest gap if and only if eight are tracked |
| SeqLoss.FillLedger | src/qofseq.c:99-174 | the octets of a segment below nsn that were in a gap before and in none after all come out of one gap; together with the octets counted as retransmitted they are the whole segment; some octet is counted as retransmitted if and only if some octet of the segment was not missing; tracked plus lost octets shrink by those recovered, with the excess stated when a split hits the last cell |
| SeqLoss.SegmentLedger | src/qofseq.c:206-234 | nsn advances by exactly the octets skipped plus sent; tracked plus lost octets grow by the skipped or shrink by the recovered ones; the retransmission count rises if and only if some octet of the segment was not missing |
| SeqLoss.FillKeeps | src/qofseq.c:99-174 | each fill leaves a gap set between the old one without the segment and the old one, up to the gap given up by a split |
| SeqLoss.StillMissing | src/qofseq.c:107-137 | an octet of the segment still missing afterwards lies in a gap that starts strictly inside the segment |
| SeqLoss.FillExact | src/qofseq.c:99-174 | a fill removes exactly the segment if and only if no gap starts strictly inside the segment and the segment does not lie strictly inside a gap of a full stack |
| SeqLoss.LostIsFullSplit | src/qofseq.c:147-165 | a fill gives octets up if and only if the segment lies strictly inside a gap of a full stack |
| SeqLoss.RunLedger | src/qofseq.c:185-299 | in every run the loss counted is the octets skipped less those recovered, plus what splits of the lowest cell count twice |
| SeqExact.FirstIsSeen | src/qofseq.c:185-190 | after the first segment nsn is the first number not yet seen, a SYN counting as one |
| SeqExact.NothingSkipped | src/qofseq.c:196-234 | a run in which no segment starts beyond nsn counts no loss |
| SeqExact.InSequence | src/qofseq.c:185-234 | a connection whose segments arrive in sequence, its SYN counting one, counts no loss, and nsn is the number after everything sent |
| SeqExact.CreditsIsRecovered | src/qofseq.c:99-174 | a segment below nsn takes an octet out of the gaps if and only if it carries it and the octet is in a gap that does not start above the segment |
| SeqExact.LossIsExact | src/qofseq.c:185-299 | in every run the loss counted is exactly the octets that never arrived, plus those that arrived only in segments that did not account for them, plus what splits of the lowest cell count twice |
| SeqLoss.CountWithinSpan | src/qofseq.c:185-299 | in a run without such splits the loss counted is at most the span from the end of the first segment to nsn |
| SeqLoss.UnseenIsTracked | src/qofseq.c:185-234 | in every run an octet between the first segment and nsn that never arrived is in a gap or has been given up |
| SeqLoss.LossNotUnderCounted | src/qofseq.c:185-299 | in every run of segments and loss counts, lost plus tracked octets, as unbounded numbers, are at least the octets between the first segment and nsn that never arrived |
| SeqTracker.Reported | src/qofseq.c:281-299 | the 32-bit count equals the unbounded one if and only if that is below 2^32, and is then at least the number of octets that never arrived |
| SeqTracker.ReportedWithinSpan | src/qofseq.c:281-299 | for a run that spans less than 2^32 octets and never splits the lowest cell of a full stack the 32-bit number is exactly the octets that never arrived plus those that arrived only in segments that did not account for them |
| SeqOverflow.CountWraps | src/qofseq.c:281-299 | thirty-two segments that each skip 2^27 octets: 2^32 octets never arrive and the 32-bit count is 0 |
| SeqOverflow.SkipsInWindow | src/qofseq.c:196-234 | every segment of that run is within the window of serial comparison |
| SeqCells.WrapIsOrder | src/qofseq.c:31-33 | serial comparison of 32-bit numbers is the order of sequence numbers, and subtraction their distance, within half the number space |
| SeqCells.SeekRefines | src/qofseq.c:109-111 | the seek over cells stops at the gap the specification finds |
| SeqCells.FillRefines | src/qofseq.c:99-174 | within the window the 32-bit fill of the eight cells is the fill of the gaps, with the same retransmitted and lost octets |
| SeqTracker.PushRefines | src/qofseq.c:86-97 | a pushed gap never extends the top one: the cells are those of the gaps with the new one on top, the evicted gap being counted lost |
| SeqTracker.EpochAdvances | src/qofseq.c:228-234 | the wrap counter follows the 2^32 epoch of nsn |
| SeqTracker.Tracker.constructor | src/qofseq.c:185-194 | the first segment starts with no gaps and nsn = seq + octets, plus one for a SYN, modulo 2^32 |
| SeqTracker.Tracker.GapShift | src/qofseq.c:74-78 | removes one cell and empties the last |
| SeqTracker.Tracker.GapUnshift | src/qofseq.c:80-84 | makes room at a cell and returns the size of the one that falls out |
| SeqTracker.Tracker.GapPush | src/qofseq.c:86-97 | pushes a range on the cells and counts what falls out as lost |
| SeqTracker.Tracker.SeekGap | src/qofseq.c:109-111 | the seek loop returns the first cell that is empty or does not start above the segment |
| SeqTracker.Tracker.GapFill | src/qofseq.c:99-174 | the fill loop computes the cell-level fill, with its lost octets and whether any octet counts as retransmitted |
| SeqTracker.Tracker.SegmentArrives | src/qofseq.c:196-234 | one segment on the 32-bit state is one segment of the unbounded specification, and extends the run that the state is tied to; out-of-order segments are reckoned from the octets skipped |
| SeqTracker.Tracker.CountLost | src/qofseq.c:281-299 | clears the gaps and returns the loss of the whole run so far: exact if and only if it is below 2^32, and then at least the octets that never arrived |
| SeqTracker.CountLostTwice | src/qofseq.c:281-299 | counting the loss a second time returns the same value |
| FragSpec.WalkSound | src/yafrag.c:333-342 | for arbitrary overlapping fragments a successful traversal leaves no uncovered octet below the end it reports |
| FragSpec.WalkEndsAtLast | src/yafrag.c:333-342 | the reported end is that of the last record in offset order |
| FragSpec.ReachesFurthest | src/yafrag.c:330-362 | whatever the sort does with ties, the end of a successful traversal reaches the furthest octet that arrived if and only if every record that starts last also ends last |
| FragSpec.OverlapFallsShort | src/yafrag.c:333-362 | two overlapping fragments for which the reported end falls short of an octet that arrived |
| FragSpec.CompletionIsCoverage | src/yafrag.c:317-369 | for the tiles of a datagram in any order, with any duplicates and any sort, the completion test succeeds exactly when no tile is missing, and then reports the payload length |
| FragRuns.Run | src/yafrag.c:453-549 | every reachable state keeps index, queue and count in agreement and the queue ordered by age |
| FragRuns.FreshIsSuffix | src/yafrag.c:392-397 | in a queue ordered by age, stopping at the first node that has not expired finds exactly the expired nodes of a full scan |
| FragRuns.SinceIsCollected | src/yafrag.c:202-232 | in every run the node of a datagram holds exactly the tiles accepted since it was last completed or dropped, through any other traffic, and these are never all of them |
| FragRuns.AssembledByLastTile | src/yafrag.c:453-549 | in every run, with any order, duplicates and repetitions, an accepted tile is replaced by the assembled datagram if and only if it brings the last tile missing since the datagram was last completed or dropped; the IP length is payload plus header |
| FragRuns.PrunedOnlyWhen | src/yafrag.c:371-397 | a node is dropped only when a packet of another datagram comes more than 30 seconds after its last fragment, or the table has reached its limit |
| FragRuns.KeptWhenRecent | src/yafrag.c:371-397 | with no limit, or one above the number of datagrams in the run, tiles are dropped only when a packet of another datagram comes more than 30 seconds after the last of them |
| FragRuns.AssembledIsCovered | src/yafrag.c:317-369 | whatever the fragments, an assembled datagram has no uncovered octet below the end used for its length |
| FragExpiry.PruneIsFullScan | src/yafrag.c:371-397 | pruning less than five seconds after the last one changes nothing; otherwise it keeps exactly the nodes touched in the last thirty seconds, less the least recently touched ones above the limit |
| FragExpiry.NodesAreFresh | src/yafrag.c:371-397 | in every run, after every accepted packet no node has waited thirty-five seconds; if the packet pruned, none more than thirty, and there are fewer nodes than the limit |
| FragExpiry.DroppedWhenOld | src/yafrag.c:392-397 | a datagram is dropped by a packet of another one that comes more than thirty seconds after its last tile and finds pruning due |
| FragExpiry.RejectedIsOlder | src/yafrag.c:464-476 | a fragment is rejected if and only if an earlier fragment of the run was later; the clock is the latest of them |
| FragLedger.NodeIsCollected | src/yafrag.c:202-232 | in every run and for any fragments, records and marks of a node are those of the fragments accepted for its key since it was made |
| FragLedger.OutcomeOfAny | src/yafrag.c:317-369 | in every run and for any fragments, a packet is replaced by an assembled datagram if and only if the fragments collected hold a first and a last one, leave no gap in offset order and, for TCP, a decoded header; its length is the end of the last one plus the header |
| FragLedger.StatsOfRun | src/yafrag.c:253-315 | in every run the statistics count fragments taken in, fragments rejected, datagrams assembled, nodes dropped and the most nodes there ever were |
| FragTable.Traverse | src/yafrag.c:333-342 | the traversal loop returns the end of the last record or the fact of a gap |
| FragTable.Table.GetNode | src/yafrag.c:234-282 | finds or creates the node and puts it at the head of the queue with the current time |
| FragTable.Table.AddFragment | src/yafrag.c:202-232 | appends the record and notes first and last fragment |
| FragTable.Table.RemoveNode | src/yafrag.c:298-315 | takes the node out of index and queue and counts a drop |
| FragTable.Table.CompleteNode | src/yafrag.c:317-369 | sorts, traverses and fills the assembled slot as the specification step does |
| FragTable.Table.DropExcess | src/yafrag.c:384-390 | the tail loop drops exactly the least recent nodes above the limit |
| FragTable.Table.DropExpired | src/yafrag.c:392-397 | the tail loop drops exactly the expired nodes |
| FragTable.Table.PruneQueue | src/yafrag.c:371-397 | pruning is rate limited and otherwise drops the excess and then the expired nodes |
| FragTable.Table.DefragPBuf | src/yafrag.c:453-549 | one packet on the mutable table is one step of the state machine; the assembled slot is empty afterwards |
| PickableQueue.PicQ.Pick | src/picq.c:72-103 | removes exactly one node from any position, nulls its links and keeps the rest in order; a node outside the queue changes nothing |
| PickableQueue.PicQ.EnQ | src/picq.c:105-122 | the links represent the old sequence with the node at the head; while only EnQ and DeQ are used, what was put in is what was taken out followed by what is there |
| PickableQueue.PicQ.DeQ | src/picq.c:156-167 | takes the node at the tail, null if and only if the queue is empty, keeping the same first-in first-out law |
| PickableQueue.Move | src/yaftab.c:499-522 | taking a node from one queue, if it is there, and putting it at the head of another keeps both well linked and disjoint |
| PickableQueue.PicQ.Unshift | src/picq.c:124-141 | the links represent the old sequence with the node at the tail |
| PickableQueue.PicQ.Shift | src/picq.c:143-154 | takes the node at the head, null if and only if the queue is empty |
| PickableQueue.Relinked | src/picq.c:85-101 | bypassing a position leaves links, head and tail that represent the sequence without it |
| BitmapSpec.CombineSound | src/bitmap.c:169-186 | combining the classes of two adjacent ranges describes their union |
| BitmapSpec.RangeClassSound | src/bitmap.c:203-227 | the class of a range over any number of words is NONE if and only if all clear, FULL if and only if all set; START, END and EDGE say exactly which positions were set and PART that some but not all were |
| BitmapSpec.RangeClassExactly | src/bitmap.c:169-227 | which class is returned: START and EDGE if and only if exactly those positions were set and the first word holds a second position of the range, EDGE also the last; END only within one word; otherwise PART |
| BitmapSpec.RunIsSet | src/bitmap.c:203-244 | over every interleaving of range sets and shift-downs the bitmap is the set of absolute positions ever set |
| BitmapSpec.CountsAreConserved | src/bitmap.c:203-244 | one bits shifted out plus one bits held are as many as the positions ever set |
| Words.SameBits | src/bitmap.c:18-121 | a 64-bit word is determined by its bits |
| Words.MaskBits | src/bitmap.c:53-121 | the intersection of the two mask tables has exactly the bits of the range |
| Words.ClassOfIsClassify | src/bitmap.c:188-196 | the comparisons of the masked word with 0, the mask and single bits give the class of the bit range |
| Words.SetIsOr | src/bitmap.c:198-198 | or-ing the mask sets exactly the positions of the range |
| BitCount.CountSetIsOnes | src/bitmap.c:124-144 | the parallel count of a 64-bit word is its number of one bits |
| Bitmap.Map.constructor | src/bitmap.c:155-163 | a new bitmap has all bits clear and the capacity rounded up to whole words |
| Bitmap.Map.TestAndSetInner | src/bitmap.c:188-201 | classifies and sets a range of one word, leaving the others |
| Bitmap.Map.TestAndSetRange | src/bitmap.c:203-227 | over the circular array the flat bits become those with the range set, and the class is that of the range before |
| Bitmap.Map.TestBit | src/bitmap.c:229-237 | returns the bit at a position of the flat sequence |
| Bitmap.Map.ShiftDown | src/bitmap.c:239-244 | returns the lowest 64 bits; the others move down and 64 clear bits follow |
| Bitmap.Shifted | src/bitmap.c:239-244 | clearing the base word and advancing the base circularly is dropping the lowest 64 bits and appending 64 clear ones |
| Bitmap.WordCountsAreConserved | src/bitmap.c:124-244 | bimCountSet summed over the words shifted out, plus the bits still held, is the number of positions ever set |
| Bitmap.Map.CountsOfRun | src/bitmap.c:124-244 | bimCountSet summed over the words a bitmap returned, plus the bits it holds, is the number of positions ever set in it |
| Bitwise.PrefixIsInterval | src/qofifmap.c:211-214 | between the masked address and the address with all other bits set lie exactly the words that agree under the mask, which are those with the same leading bits |
| Bitwise.ShiftIn | src/qofifmap.c:49-52 | shifting a mask down and setting its top bit makes the prefix one bit longer, until it is the whole word |
| IntervalMap.InsertKeepsOrder | src/qofifmap.c:174-216 | inserting where the linear search stops keeps entries sorted and disjoint if and only if the new interval is disjoint from the old ones |
| IntervalMap.BuildIsOrdered | src/qofifmap.c:174-262 | intervals inserted in any order end up sorted and disjoint if and only if they are pairwise disjoint |
| IntervalMap.BuildRefinesRules | src/qofifmap.c:174-262 | lookup in the map built from disjoint intervals is lookup in the list of them |
| IntervalMap.MapRefinesPrefixes | src/qofifmap.c:174-262 | for any linear order of addresses and any prefix-to-interval map: ordered if and only if no address matches two prefixes, and then the interface of the one that matches, or 0 |
| PrefixMap4.PrefixMask | src/qofifmap.c:45-54 | the loop builds the mask of the first p bits, all ones for p above 32 |
| PrefixMap4.MatchesIsLeadingBits | src/qofifmap.c:45-54 | masked equality is equality of the leading bits |
| PrefixMap4.EntryIsPrefix | src/qofifmap.c:211-215 | interval membership is masked-prefix equality for every IPv4 prefix and address |
| PrefixMap4.RefinesPrefixes | src/qofifmap.c:174-216 | IPv4 prefixes inserted in any order: sorted if and only if disjoint, and then lookup gives the interface of the unique covering prefix or 0 |
| PrefixMap4.Map.Add | src/qofifmap.c:174-216 | inserts the prefix's interval where the linear search stops; the entries are those of the prefixes added so far |
| PrefixMap4.Map.Search | src/qofifmap.c:89-113 | for disjoint prefixes the binary search returns the interface of the one that the address matches, or 0 |
| PrefixMap4.Map.SearchEntries | src/qofifmap.c:89-113 | over ordered entries the binary search returns what a linear scan would |
| PrefixMap6.Compare | src/qofifmap.c:34-36 | the bytewise comparison is negative or positive exactly as one address comes before the other |
| PrefixMap6.PrefixMask | src/qofifmap.c:56-71 | the three loops build the mask of the first p of 128 bits |
| PrefixMap6.MatchesIsLeadingBits | src/qofifmap.c:56-71 | masked equality is equality of the whole bytes and of the leading bits of the boundary byte |
| PrefixMap6.StringInterval | src/qofifmap.c:256-261 | lexicographically between first and last address lie exactly the addresses that agree under the mask |
| PrefixMap6.EntryIsPrefix | src/qofifmap.c:256-261 | interval membership is masked-prefix equality for every IPv6 prefix and address, and the order is linear |
| PrefixMap6.RefinesPrefixes | src/qofifmap.c:218-262 | the same law as for IPv4, for 16-byte lexicographic addresses |
| PrefixMap6.Map.Add | src/qofifmap.c:218-262 | inserts the prefix's interval where the linear search stops; the entries are those of the prefixes added so far |
| PrefixMap6.Map.Search | src/qofifmap.c:115-140 | for disjoint prefixes the binary search returns the interface of the one that the address matches, or 0 |
| PrefixMap6.Map.SearchEntries | src/qofifmap.c:115-140 | over ordered entries the binary search returns what a linear scan would |
| RingSpec.SlotsDiffer | src/ring.c:192-197 | elements less than a capacity apart lie in different slots, a capacity apart in the same |
| RingSpec.SlotIsModulo | src/ring.c:192-197 | advancing and wrapping the pointer is counting modulo the capacity |
| RingSpec.RunInv | src/ring.c:180-417 | every interleaving of all seven calls keeps hrsv <= count and count + trsv <= cap, and the elements handed out by waits and not released are as many as hrsv and trsv say |
| RingSpec.WhenRefused | src/ring.c:180-350 | adds are refused if and only if queued and consumer-held slots fill the ring, removals if and only if the producer holds all that is queued |
| RingSpec.ForcedLeavesOne | src/ring.c:215-250 | a forced add drops the oldest element if and only if at most one slot was free, so it never takes the last free slot |
| RingSpec.ReleasesOldest | src/ring.c:306-417 | a release gives back n reservations or all there are, those made first |
| RingSpec.ShelteredIsApart | src/ring.c:270-417 | while the elements each side was handed and has not released are all protected by the counters, no slot is held by both sides |
| RingSpec.StepShelter | src/ring.c:180-417 | from such a state a call leaves such a state if and only if: rgaNextHead is refused or hrsv is 0; rgaNextTail is refused or trsv is 0; rgaForceHead finds hrsv 0 and either trsv 0 or room to spare; waits and releases always |
| RingSpec.RunIsApart | src/ring.c:180-417 | in every run whose plain and forced calls respect these guards no slot is held by producer and consumer at once |
| RingSpec.UnguardedIsShared | src/ring.c:180-417 | a call that breaks its guard leaves an element that some sequence of waits brings into both hands, unless it was a forced add that at once pushes out an element of the producer or reuses a slot of the consumer |
| RingSpec.ConsumerReaches | src/ring.c:326-397 | an element that the producer holds, still queued and not among the newest hrsv, can be handed to the consumer |
| RingSpec.ProducerReaches | src/ring.c:180-296 | the slot of an element that the consumer holds and that is not among the last trsv removed can be handed to the producer |
| RingSpec.HeadIsFree | src/ring.c:185-188 | while what is held is protected, the slot of the next add is one of the consumer's if and only if queued and held slots fill the ring, which is when rgaNextHead refuses |
| RingSpec.TailIsFree | src/ring.c:331-334 | while what is held is protected, the next element to leave is one of the producer's if and only if it holds all that is queued, which is when rgaNextTail refuses |
| RingSpec.SharedAfterPlainAdd | src/ring.c:180-208 | a reserving add, a plain add and a reserving removal leave slot 0 with both sides, in any ring of two slots or more |
| RingSpec.SharedAfterForcedAdd | src/ring.c:215-250 | from the empty ring of four: three plain adds, a reserving removal, a forced add and a reserving add leave slot 0 with both sides |
| RingSpec.SharedAfterPlainRemoval | src/ring.c:326-350 | from the empty ring of four: three plain adds, a reserving and a plain removal, a plain and a reserving add leave slot 0 with both sides |
| PacketRing.Ring.constructor | src/ring.c:87-115 | a new ring is empty and without reservations |
| PacketRing.Ring.AddHead | src/ring.c:180-208 | rgaNextHead: null if and only if queued and consumer-held slots fill the ring, otherwise one element is added in the next slot |
| PacketRing.Ring.ForceAtHead | src/ring.c:215-250 | rgaForceHead: an element is always added, at the cost of only the oldest one when the ring would otherwise become full |
| PacketRing.Ring.TakeTail | src/ring.c:326-350 | rgaNextTail: null if and only if count is at most hrsv, otherwise the oldest element, as it was added |
| PacketRing.Ring.WaitForHead | src/ring.c:276-296 | adds an element and counts it as handed to the producer |
| PacketRing.Ring.GiveHead | src/ring.c:306-318 | gives back reservations in the order they were made, at most those there are |
| PacketRing.Ring.WaitForTail | src/ring.c:375-397 | hands the oldest element to the consumer and counts it as held |
| PacketRing.Ring.GiveTail | src/ring.c:405-417 | gives back reservations in the order they were made, at most those there are |
| PacketRing.Ring.Fill | src/ring.c:180-250 | writing an element still in the ring changes no other element and none of the last trsv removed |
| PacketRing.Ring.HeldElement | src/ring.c:375-397 | while what is held is protected, an element in the consumer's hands is what was added under its number |
| LeakyBucket.Detune.Admit | src/qofdetune.c:59-125 | one packet drains, fills, and is accepted or dropped by the full bucket or the die as the specification step says, in the source's integer widths; a dropped packet does not advance the clock |
| LeakyBucket.DrainedEnough | src/qofdetune.c:61-71 | however the arithmetic wraps, no more drains than the rate allows since the last accepted packet |
| LeakyBucket.DrainsExactly | src/qofdetune.c:61-71 | the level after draining is exactly what the rate leaves, not below zero, if and only if the bucket is empty, that amount is within the level, or the 32-bit difference does not come out positive |
| LeakyBucket.AfterRefusal | src/qofdetune.c:74-83 | after a packet that the full bucket turned away the next one is let through if and only if it is smaller than the capacity and than what the rate allows since the last accepted packet |
| LeakyBucket.StuckFromTheStart | src/qofdetune.c:61-83 | a bucket whose first packet is at least as large as the capacity never lets a packet through |
| LeakyBucket.LevelKeeps | src/qofdetune.c:59-92 | after an accepted packet the level never falls below the octets accepted since, less what the rate allows in the time drained, whatever the die does |
| LeakyBucket.ConformanceWithDrops | src/qofdetune.c:55-126 | for every window between accepted packets the accepted octets are fewer than bucket_max plus what drains in the time drained, which counts the time before a random drop again |
| LeakyBucket.DrainTimeIsElapsed | src/qofdetune.c:85-92 | in a window without random drops the time drained is the time elapsed |
| LeakyBucket.Conformance | src/qofdetune.c:55-126 | for every window between accepted packets with no random drop in it the accepted octets are fewer than bucket_max plus bucket_rate times the elapsed seconds |
| LeakyBucket.RandomDropBreaksConformance | src/qofdetune.c:85-92 | three packets around one random drop for which that bound fails |
| StreamStat.NextMeanIsMean | src/streamstat.c:50-52 | the mean update gives the mean of the grown sample |
| StreamStat.DeviationGrows | src/streamstat.c:51-53 | the update of s gives the sum of squared deviations from the new mean |
| StreamStat.MeanBetween | src/streamstat.c:39-55 | the mean of a sample lies between its least and greatest member |
| StreamStat.Mean.Add | src/streamstat.c:39-55 | after any samples n, mean, s, min, max and last are those of the whole sample |
| StreamStat.Mean.Variance | src/streamstat.c:57-60 | times n - 1 it is the sum of squared deviations; 0 for fewer than two samples |
| StreamStat.Mean.MeanBounds | src/streamstat.c:39-55 | min <= mean <= max |
| StreamStat.SmoothedBetween | src/streamstat.c:76-76 | the weighted integer mean, rounded towards zero, stays in any range that holds both numbers |
| StreamStat.SmoothedIsWeighted | src/streamstat.c:76-76 | the new value times alpha is alpha - 1 times the old one plus the sample, up to a remainder below alpha with the sign of the sum |
| StreamStat.LinSmooth.Add | src/streamstat.c:70-79 | after any samples the value is that of the whole run in 32-bit arithmetic, leading zeros restarting the smoothing, and min and max are those of the samples after them |
| StreamStat.ValBetween | src/streamstat.c:70-79 | over every run in which no update overflows the value lies between the least and the greatest sample, leading zeros aside |
| StreamStat.LinSmooth.ValBetweenSamples | src/streamstat.c:70-79 | while no update has overflowed the smoothed value lies between the least and the greatest of all samples |
| StreamStat.SmoothedExactly | src/streamstat.c:76-76 | the update in 32-bit arithmetic is the weighted mean if and only if val * (alpha - 1) + x fits 32 bits |
| StreamStat.RunIsExact | src/streamstat.c:70-79 | over a whole run the 32-bit value is the unbounded one after every sample if and only if every update fits 32 bits |
| StreamStat.BoundedRunFits | src/streamstat.c:70-79 | samples whose bound times alpha is within 2^31 - 1 never make an update overflow |
| StreamStat.SmoothedFitsInt | src/streamstat.c:76-76 | for values and samples whose bound times alpha is within 2^31 - 1 the update in 32-bit arithmetic is exact |
| StreamStat.SmoothedWraps | src/streamstat.c:70-79 | after two samples of 2^29 with weight 8 the value is 0 |
| StreamStat.LinSmooth.NextFitsInt | src/streamstat.c:70-79 | with all samples within that bound the next update is exact |
| RoundTrip.Dir.SetAckWait | src/qofrtt.c:26-34 | waits for an acknowledgement and for nothing else |
| RoundTrip.Dir.SetEcrWait | src/qofrtt.c:37-45 | waits for an echoed timestamp and for nothing else |
| RoundTrip.Rtt.Sample | src/qofrtt.c:47-62 | takes one sample, the sum of both directions' delays, if and only if both have been observed |
| RoundTrip.Dir.ElapsedIsTime | src/qofrtt.c:65-127 | the 32-bit time since a wait began is exact if and only if it is below 2^32 ms |
| RoundTrip.Dir.AckCovers | src/qofrtt.c:65-127 | within half the number space an acknowledgement ends a wait for one if and only if it covers the number waited for |
| RoundTrip.Dir.EchoCovers | src/qofrtt.c:65-127 | within half the number space an echo ends a wait for one if and only if it is of the timestamp waited for or a later one |
| RoundTrip.Rtt.Segment | src/qofrtt.c:65-127 | no direction ever waits for both; which wait ends, which begins, which delay is observed and when a sample is taken |
| RoundTrip.Rtt.SmoothedBetweenSamples | src/qofrtt.c:47-62 | while no update overflows 32 bits the smoothed round-trip time lies between the smallest and the largest sample |
| RoundTrip.Rtt.SmoothingFitsInt | src/qofrtt.c:47-62 | for round-trip times below 2^28 ms no update overflows |
| HeaderWalk.Shims | src/decode.c:518-589 | every shim takes at least four captured bytes, the walk stays within the capture, and what follows the last one is not a shim |
| HeaderWalk.DecodeShims | src/decode.c:518-589 | the loop over VLAN, MPLS and PPPoE headers terminates and gives that result |
| HeaderWalk.ShimsArePath | src/decode.c:474-589 | the walk ends where the shims lead and wherever they do within the capture: a VLAN tag to the type it names, the bottom MPLS label to the IP version below it, PPPoE to what its protocol number stands for |
| HeaderWalk.WalkIsChain | src/decode.c:826-893 | the IPv6 walk stops at layer 4 if and only if a chain of extension headers leads there within the capture, which may not say that the packet is a fragment if fragments are not wanted |
| HeaderWalk.Ip4Fields | src/decode.c:697-771 | an IPv4 header is accepted if and only if it is captured, fits its total length and is not an unwanted fragment; protocol, length, fragment flag and offset are then the bytes 9, 2-3 and 6-7 |
| HeaderWalk.Ip6Fields | src/decode.c:778-893 | the length of an accepted IPv6 packet is bytes 4-5 plus 40, and its fragment flag and offset are those of the last fragment header in its chain |
| HeaderWalk.DecodeIPv6 | src/decode.c:780-893 | the extension header loop terminates and gives that walk |
| HeaderWalk.WalkOptions | src/decode.c:971-1045 | the option loop accepts exactly the well-formed option lists and always ends at the end of the header |
| HeaderWalk.DecodeTCP | src/decode.c:902-1046 | a TCP header is accepted exactly when it is captured whole and its options form a list, and then ends at 4 * th_off, also when th_off is below 5 |
| HeaderWalk.BeyondIsMalformed | src/decode.c:702-812 | the capture arithmetic stays within the packet if and only if the IPv4 header fits its total length and the IPv6 length does not wrap, or the packet is an IPv4 fragment and fragments are not wanted |
| HeaderWalk.Layer4IsCaptured | src/decode.c:902-1172 | layer 4 is accepted if and only if its header is captured whole and TCP options form a list; in a fragment an incomplete TCP header is left alone |
| HeaderWalk.LaterFragment | src/decode.c:1345-1368 | layer 4 is read unless the packet is a fragment with an offset, which stands after its IP header |
| HeaderWalk.ShortLengthGoesBeyond | src/decode.c:714-740 | a twenty-byte IPv4 header with a total length of ten goes beyond the packet |
| HeaderWalk.IpHeaderLength | src/decode.c:714-893 | the IP header length is the header's own (IPv4) or 40 plus the extension chain (IPv6) |
| HeaderWalk.WalkIsExact | src/decode.c:1302-1391 | an accepted unfragmented packet was walked to the end of the header its protocol prescribes, and both headers fit the IP length |
| HeaderWalk.DataLengthIsExact | src/yaftab.c:842-843 | the flow table's payload length of such a packet is IP length less IP header chain less layer-4 header, and not negative |
| HeaderWalk.FrameIsPath | src/decode.c:605-625 | an accepted frame is fourteen bytes of Ethernet and the shims that its type announces, and the IP header read is the one they lead to |
| HeaderWalk.FrameFollows | src/decode.c:605-625 | where the shims of a frame lead, there its IP header is read |
| HeaderWalk.PayloadOfIPv4 | src/yaftab.c:842-843 | the payload length of an accepted unfragmented IPv4 packet, byte by byte: total length less header length less the layer-4 header of protocol byte 9 |

## Left out

- Packet capture, record encoding and templates, configuration files, options, statistics output and signals (src/qofltrace.c, src/yafcore.c, src/yafout.c, src/qofconfig.c, src/yafstat.c, src/qof.c): input and output over other libraries; a write is a success or a failure.
- airframe/ and pytools/: daemon plumbing and scripts.
- Hash values, the sorting algorithm and the allocator of glib.
- src/qofmaclist.c: its insertion test is not an order test, so its search has no specification to meet.
- Flow fields that only copy packet data: MAC addresses, TTL, ECN, TCP flag unions, window sizes and acknowledgement tracking.
- Widths of packet, octet and flow counters and of epoch times in the flow and fragment tables: unbounded in the model.
- SeqTracker.Tracker.SegmentArrives: leaves out the reordering maximum, inter-arrival and timestamp-frequency fields and qfSeqCount (src/qofseq.c:208-210, 236-264, 273-279, 301-313), which mix widths without defining a clean quantity.
- FragTable.Table.DefragPBuf: leaves out payload bytes; IPv6 fragments are always marked as having more to come (src/decode.c:852), so theirs never complete; the late TCP header decode never has payload and is modelled as failing.
- FragTable.Table.PruneQueue: leaves out prune_all, which only frees the table.
- Bitmap.Map: leaves out bimHighBitSet (src/bitmap.c:146-153), a scan for the highest bit.
- PrefixMap4.Map.Search: leaves out qfFlowDirection and qfIfMapAddresses, which combine two lookups.
- PacketRing.Ring: leaves out the memory behind a slot that both sides hold, mutexes and condition signals, the two peek operations and element alignment.
- LeakyBucket.Detune.Admit: leaves out where the outcome of the random drop comes from (it is a parameter) and the two delays, which change only the reported time.
- StreamStat.Mean.Add: means are real numbers, not floating point.
- HeaderWalk.DecodeTCP: leaves out the values read from TCP options, keeping only which lists are accepted.
- HeaderWalk.WalkIsExact: leaves out GRE decapsulation, whose outer and inner lengths are not reconciled, the required-type filter, and link types other than Ethernet.
- Code under #if 0 and the DAG, Napatech and Bivio variants.
