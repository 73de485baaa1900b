# Verified models of two transport protocols and what they stand on

The repository holds two reliable transports written as kernel C, and the framing, header,
allocation and serialisation code under them.  This project models them in Dafny and proves
what they promise over whole runs.

* **MINIP** (`Rto`, `Minip`, `MinipConnection`, `MinipSystem`, `MinipExchange`, `MinipStall`): a
  go-back-N transport between two proxies, with an 8-bit window, cumulative ACKs, a retry limit and the RFC 6298
  retransmission timer in fixed point.
* **RINA EFCP** (`EfcpSender`, `EfcpSenderRuns`, `EfcpReceiver`, `EfcpReceiverRuns`,
  `EfcpTransmission`, `EfcpDelivery`, `EfcpSystem`, `EfcpConnection`): DTP and DTCP with credit
  flow control, a closed-window queue, a retransmission queue, a resequencing queue and the
  A-timer.
* **Delimiting** (`Delim`) and the two together (`EndToEnd`): SDUs cut into fragments, sent
  through EFCP, and put together again.
* **Headers** (`Numbers`, `Pci`, `PciLayout`, `PciAccess`, `Du`): the computed field layout, the
  getters and setters that dispatch on the type stored in the header, encapsulation.
* **Flow allocator** (`Kfa`, `KfaRuns`, `KfaLifecycle`), **CEP ids** (`Cidm`), **serialisers**
  (`Serdes`, `SerdesLayout`, `SerdesCursor`).

How the models are built:

* Each handler, or each region under one lock, is one atomic step.  A step is a function of
  the state; the class beside it (`MinipConnection.Connection`, `EfcpConnection.Dtp`,
  `Delim.Reassembler`, `Kfa.Instance`, ...) updates fields, queues and buffers in place, loop
  by loop as the source does, and each method is proved to compute that function.
  The handlers of `Kfa.Instance` have no loops and are proved equal to the steps of `KfaRuns`
  one by one; the table names the results about those steps.
* A run is any sequence of events.  An event that is not enabled changes nothing.  The network
  keeps everything ever sent and may deliver any of it at any later time, any number of times,
  or never: loss, duplication and reordering, but no forgery.  The sender-side EFCP results
  (`EfcpSenderRuns`) hold against arbitrary, also forged, control PDUs.
* Invariants of runs say what never happens.  `MinipExchange`, `EfcpTransmission`,
  `EfcpDelivery` and `KfaLifecycle` say what each event does do, after any run, on the wire, the
  queues, what is delivered and who uses a flow, and without the functions that define the step.
* Clocks, timer schedules, the bytes a socket has ready, how much a socket accepts, and which
  SDU fits a read are parameters of the events.
* Sequence numbers are mathematical integers, because the code compares them with plain `<`.
  Where a machine width matters it is written out: the 8-bit MINIP window, the 32-bit RTO
  arithmetic, the 16-bit counters of the serialisers, the byte widths of header fields.

The main results, each over every input, run or interleaving:

* MINIP: `StreamSafety`, `QueueExactness`, `WindowNeverWraps`, `WindowBoundReached`,
  `TimeoutIsAccurate`, `TimeoutCoversAllIff`, `DuplicateAckResends`, `GoodAckResumes`,
  `SampleIsElapsedTime`, `SilentIffStalled`; the timer alone: `RtoThroughoutIff`, `RangeOfHistory`.
* EFCP: `ClosedWindow`, `RetransmissionQueue`, `ReceiverOrderIff`, `AcksStrictlyIncrease`,
  `RetransmittedIffDue`, `NackedIffAtOrAbove`, `EffectiveControl`, `InOrderIsPosted`,
  `ATimerPosts`, `NothingDeliverableWaits`, `WindowAgreement`, `AckSafetyIff`, `ContiguousIff`.
* Delimiting, and SDUs end to end: `ReassemblyOfRun`, `WholeSdu`, `SdusArriveIff`.
* Headers: `FieldsDisjoint`, `SetterExactIff`, `SettersExactIff`, `SequencesReadBackIff`,
  `EncapDecap`.
* Flow allocator: `DestroyedAtMostOnceAndUnused`, `DeallocatedFlowsAreReclaimed`,
  `DeallocateTakesDown`, `LastTaskDestroys`, `ClosingStays`, `FifoConserved`.
  CEP ids: `Allocate`, `NoEarlyReissue`.  Serialisers: `RoundTripIff`.

Properties that turn out to hold only under a condition are stated as equivalences:

* The ring of PDUs to post has 1000 slots and drops what does not fit, while the left edge,
  and so the acknowledgement, moves past the dropped PDU.  Receiver order, acknowledgement
  safety, contiguous delivery and the arrival of whole SDUs hold in every run exactly when A is
  0 or the credit is at most 1000 (`ReceiverOrderIff`, `AckSafetyIff`, `ContiguousIff`,
  `SdusArriveIff`).
* The accessors switch on the type byte of the header they work on.  A setter changes its own
  field and no other, on every header of a type, exactly when it is not the type setter or the
  new type takes the same branches (`SetterExactIff`, and `SequencesReadBackIff` for
  sequences; `TypeWriteHidesAck` is a failing input).
  That all setters so restricted are exact, for every type, needs sequence numbers and control
  sequence numbers of one width and nothing else (`SettersExactIff`); data PDUs need no
  condition on the widths.
* The RTO error bounds hold all along a history of samples exactly when the first one is below
  2^29 ms and each later one fits the 32-bit stores when it is taken (`HistoryAccurateIff`); the
  8 ms bound on the timer needs its sum to fit as well (`RtoThroughoutIff`).
* The MINIP timer resends everything outstanding exactly when nothing is, or an ACK above
  `last_acked` has been seen and no packet has used up its retries (`TimeoutCoversAllIff`).
* MINIP does not always recover from loss.  If everything in flight is lost, the sender never
  sends again exactly when it may not send and the timer finds nothing to resend
  (`SilentIffStalled`; `StalledStates` says which states these are).  A first packet lost alone
  leads there (`LostFirstPacket`), and so does an ACK overtaken by the next one, with everything
  delivered and both ends open (`OvertakenAck`).
* A deallocated flow stays deallocated until it is destroyed exactly as long as its port is not
  bound again (`ClosingStays`, `BindRevives`).
* A serialised message reads back exactly when its strings, lists and numbers fit the widths
  written (`RoundTripIff`).

Where code and comment disagree the code is followed: the pushes into the retransmission and
resequencing queues are described as in sequence order (`rina-stack/kernel/dtp-utils.c:523`)
but insert in the middle after the first smaller entry; releasing an id that is not live is
logged as an error (`rina-stack/kernel/cidm.c:160`) but returns 0.

Nothing here was executed; everything stated is proved by the verifier.
`dafny verify dfyconfig.toml` checks the project.

## Model

| member | source | states |
|---|---|---|
| `Rto.StepAccurateIff` | pepdna/kmodule/minip.c:356-384 | one update keeps scaled srtt within [0, 7] of 8 times, and scaled rttvar within [-7/2, 13/2] of 4 times, the exact RFC 6298 values, if and only if no 32-bit store is truncated |
| `Rto.HistoryAccurateIff` | pepdna/kmodule/minip.c:356-384 | a history of positive samples keeps both error bounds at every sample if and only if the first sample is below 2^29 and each later one fits the 32-bit stores when taken |
| `Rto.RtoThroughoutIff` | pepdna/kmodule/minip.c:356-384 | besides, rto is within 8 ms of exact SRTT + 4 RTTVAR at every sample if and only if the sum it is set to fits each time |
| `Rto.HistoryIsAccurate` | pepdna/kmodule/minip.c:356-384 | in particular every history of samples of 1 .. 2^29-1 ms keeps all three bounds |
| `Rto.FirstSampleFitsIff` | pepdna/kmodule/minip.c:371-383 | the first sample keeps both bounds if and only if it is below 2^29 |
| `Rto.OverlongStartsAgain` | pepdna/kmodule/minip.c:371-383 | a first sample of 2^29 is stored as srtt 0, so the next sample counts as the first again |
| `Rto.RangeOfHistory` | pepdna/kmodule/minip.c:356-384 | samples in [r, R] with 8R < 2^32 keep srtt in [8r, 8R], rttvar <= 4R, rto in [r, 5R], and no store of the next sample is truncated |
| `Minip.EntriesRtxExact` | pepdna/kmodule/minip.c:83-117 | what retransmission does to every entry of any queue: retried and resent exactly if numbered from `from` on and no exhausted entry comes before it; it succeeds exactly if none is exhausted |
| `MinipConnection.Connection.constructor` | pepdna/kmodule/minip.c:1009-1012 | a new connection is in the established state with all numbers at 10 |
| `MinipConnection.Connection.RtxqueuePush` | pepdna/kmodule/minip.c:279-291 | appends one entry with no retries and counts it |
| `MinipConnection.Connection.RtxqueueEntriesAck` | pepdna/kmodule/minip.c:59-81 | the list loop removes the acknowledged front, no more, and returns its length |
| `MinipConnection.Connection.RtxqueueEntriesRtx` | pepdna/kmodule/minip.c:83-117 | the list loop, updating entries in place, computes the retransmission that `EntriesRtxExact` describes |
| `MinipConnection.Connection.UpdateCwnd` | pepdna/kmodule/minip.c:293-312 | the 8-bit window update, capped at the window size |
| `MinipConnection.Connection.UpdateRto` | pepdna/kmodule/minip.c:356-384 | the in-place fixed-point update is the estimator whose accuracy is proved |
| `MinipConnection.Connection.SkbSend` | pepdna/kmodule/minip.c:571-631 | one packet with the next number, queued for retransmission |
| `MinipConnection.Connection.ConnSndData` | pepdna/kmodule/minip.c:636-670 | the segmentation loop sends what `SendDataPackets` and `SendDataState` describe |
| `MinipConnection.Connection.RtxqFullRtx` | pepdna/kmodule/minip.c:119-128 | retransmits, and closes the connection when an entry has no retries left |
| `MinipConnection.Connection.SenderTimeout` | pepdna/kmodule/minip.c:323-350 | enters recovery and retransmits from last_acked + 1, unless the queue is empty |
| `MinipConnection.Connection.AckNewData` | pepdna/kmodule/minip.c:895-920 | a good ACK trims the queue, restores the credit in 8 bits and leaves recovery |
| `MinipConnection.Connection.RecvAck` | pepdna/kmodule/minip.c:862-953 | old, duplicate and good ACKs, with the round-trip sample, as the step of the two-party system, whose effect on queue, wire, window, phase and samples `GoodAckResumes`, `DuplicateAckResends`, `OldAckIsIgnored` and `SampleIsElapsedTime` state |
| `MinipConnection.Connection.I2MinipFwd` | pepdna/kmodule/minip.c:1094-1137 | reads at most a window's worth of bytes and sends all of them |
| `MinipConnection.Connection.Minip2iFwd` | pepdna/kmodule/minip.c:1142-1177 | accepts only the next packet, writes its payload and advances only when all of it was written |
| `MinipConnection.SockWrite` | pepdna/kmodule/tcp_utils.c:159-202 | the write loop passes on every byte in order or reports an error having passed on a prefix |
| `MinipSystem.SendDataState` | pepdna/kmodule/minip.c:571-670 | one queue entry, one number and one window credit per packet sent, never more packets than window for a window's worth of bytes |
| `MinipSystem.SendDataPackets` | pepdna/kmodule/minip.c:636-670 | every byte goes out once, in order, in non-empty packets of at most the segment size with consecutive numbers |
| `MinipSystem.EveryRunKeepsInv` | pepdna/kmodule/minip.c:571-1177 | every run of the two-party system keeps the joint invariant of queue, acknowledgements, wire, output, window, transmission counts and timer |
| `MinipSystem.StreamSafety` | pepdna/kmodule/minip.c:1142-1177 | in every run the bytes written to the receiver's socket are a prefix of the bytes read from the sender's |
| `MinipSystem.QueueExactness` | pepdna/kmodule/minip.c:876-925 | the queue is a consecutive run ending at next_seq - 1, len is its length, every packet not accepted is in it, and after the first ACK above last_acked it is exactly last_acked + 1 .. next_seq - 1 |
| `MinipSystem.WindowNeverWraps` | pepdna/kmodule/minip.c:293-312 | window <= 12 and window + queue <= 17 in every run, a good ACK does not wrap the 8-bit window and never reaches the branch that shrinks it |
| `MinipSystem.WindowBoundReached` | pepdna/kmodule/minip.c:895-920 | both bounds are tight: a run with one ACK repeated reaches window 12 beside five packets queued |
| `MinipSystem.GoodAckFlight` | pepdna/kmodule/minip.c:895-920 | a good ACK conserves window + queue, and when it reconsiders the window at most six packets are in flight |
| `MinipSystem.TransmissionBound` | pepdna/kmodule/minip.c:83-98 | no packet is put on the wire more than four times in any run |
| `MinipSystem.TimeoutIsAccurate` | pepdna/kmodule/minip.c:876-893 | in every run the timer value is 3000 ms before the first sample, and afterwards all three error bounds hold throughout if and only if every sample taken fits; what the samples are says `SampleIsElapsedTime` |
| `MinipSystem.RtxCoversAllIff` | pepdna/kmodule/minip.c:100-117 | a retransmission resends every entry exactly if it starts at or before the first and no entry has used up its retries |
| `MinipSystem.TimeoutCoversAllIff` | pepdna/kmodule/minip.c:323-350 | in every run the timer resends everything outstanding if and only if nothing is, or an ACK above last_acked has been seen and no packet has used up its retries |
| `MinipExchange.ReadSendsWindow` | pepdna/kmodule/minip.c:571-670 | after any run an open sender that may send and has window left sends all that is available, up to a full window, in consecutive packets stamped with the present, all full but the last; otherwise it reads nothing |
| `MinipExchange.DataIsAnswered` | pepdna/kmodule/minip.c:1142-1177 | after any run each packet that arrives is answered by one ACK with its stamp; the next expected one is delivered and advances the ACK if the socket takes all of it, and closes the receiver if not; any other changes nothing |
| `MinipExchange.GoodAckResumes` | pepdna/kmodule/minip.c:895-925 | after any run an ACK above last_acked takes exactly the packets below it off the queue, gives back one credit each and one more when fewer than six are left, up to 12, and turns sending on again |
| `MinipExchange.OldAckIsIgnored` | pepdna/kmodule/minip.c:879-884 | an ACK below last_acked changes nothing |
| `MinipExchange.DuplicateAckResends` | pepdna/kmodule/minip.c:927-949 | after any run the first ACK equal to last_acked sends every queued packet once more if and only if none has used up its retries, per packet up to the first that has, which closes the connection; a later one sends nothing; both stop sending until a good ACK |
| `MinipExchange.TimerResends` | pepdna/kmodule/minip.c:323-350 | after any run the timer sends a packet once more, newly stamped, if and only if it is above last_acked and neither it nor an earlier such packet has used up its retries; it stops sending, and closes the connection when one has |
| `MinipExchange.EveryRunKeepsStopped` | pepdna/kmodule/minip.c:905-911 | in every run a sender that may not send is in recovery, so the next good ACK lets it send |
| `MinipExchange.AckStampsAreSent` | pepdna/kmodule/minip.c:1170-1172 | in every run each ACK carries the stamp of a packet that was sent |
| `MinipExchange.SampleIsElapsedTime` | pepdna/kmodule/minip.c:886-889 | after any run an ACK adds exactly one round-trip sample if and only if it is not old, carries a stamp and the clock differs from it modulo 2^32; sample plus stamp is the present modulo 2^32, and the present itself less than 2^32 ms after the stamp |
| `MinipExchange.OnlyAcksAreMeasured` | pepdna/kmodule/minip.c:886-889 | no other event adds a sample |
| `MinipStall.SilentIffStalled` | pepdna/kmodule/minip.c:323-350 | after any run, once nothing arrives any more, nothing is ever sent again whatever is read and whenever the timer fires, if and only if the sender may not send and the timer has no packet to resend |
| `MinipStall.StalledStates` | pepdna/kmodule/minip.c:323-350 | which states these are: may not send, and the queue is empty or its first packet has used up its retries; before the first good ACK its second one, because the timer starts one past the first |
| `MinipStall.LostFirstPacket` | pepdna/kmodule/minip.c:323-350 | one packet sent and lost, one timeout: the sender is open but never sends the byte again, nor any other |
| `MinipStall.OvertakenAck` | pepdna/kmodule/minip.c:927-949 | two packets delivered, the second ACK before the first: with everything acknowledged and both ends open nothing is sent any more |
| `EfcpSenderRuns.ClosedWindow` | rina-stack/kernel/dtp-utils.c:189-328 | in every sender run the closed-window queue holds exactly max_seq_nr_sent + 1 .. seq_nr_to_send in order, is non-empty only at a closed window, and first transmissions are consecutive and within the right edge of their time |
| `EfcpSenderRuns.RetransmissionQueue` | rina-stack/kernel/dtp-utils.c:410-719 | in every sender run the queue ascends strictly, every number sent is exactly one of queued, acknowledged, dropped, and no PDU is sent more than max(1, data_retransmit_max) times |
| `EfcpSenderRuns.EveryRunKeepsInv` | rina-stack/kernel/dtp.c:1273-1440 | the sender invariant holds after any writes, timers and control PDUs, forged ones included |
| `EfcpSenderRuns.PushAtTail` | rina-stack/kernel/dtp-utils.c:524-580 | a number above all queued ones is pushed at the tail, so the middle insertion is never taken in a run |
| `EfcpSenderRuns.AckedPrefixExact` | rina-stack/kernel/dtp-utils.c:410-430 | on an ascending queue an ACK removes exactly the entries numbered at or below it |
| `EfcpSenderRuns.DeliverKeeps` | rina-stack/kernel/dtp-utils.c:220-328 | draining the closed-window queue keeps the sender invariant for any right edge and only appends to the retransmission queue |
| `EfcpSenderRuns.RtxScanOk` | rina-stack/kernel/dtp-utils.c:595-719 | the timer's scan keeps the order, sends each entry it keeps once per retry counted and drops at the limit |
| `EfcpSenderRuns.NackScanOk` | rina-stack/kernel/dtp-utils.c:432-496 | the same for the scan from the tail |
| `EfcpTransmission.WriteGoesOutIff` | rina-stack/kernel/dtp.c:1273-1440 | after any run a write takes the next number and goes out at once, with a copy stamped and queued, if and only if that is within the right edge; otherwise it waits at the back of the closed-window queue |
| `EfcpTransmission.RetransmittedIffDue` | rina-stack/kernel/dtp-utils.c:582-671 | after any run, when the timer fires, an entry gains one transmission or is dropped if and only if it and every entry before it are due: with k retries, min((1 + k * k) * tr, 60000) after its stamp; dropped if and only if this retry reaches data_retransmit_max |
| `EfcpTransmission.LeftEdgeFollowsDrops` | rina-stack/kernel/dtp-utils.c:676-684 | the timer moves the left edge up to the largest number it drops, and nowhere else |
| `EfcpTransmission.NackedIffAtOrAbove` | rina-stack/kernel/dtp-utils.c:432-496 | after any run a new NACK sends once more, or drops at the limit, exactly the entries numbered at or above it |
| `EfcpTransmission.FoundIffQueued` | rina-stack/kernel/dtp-utils.c:498-521 | on an ascending queue the lookup finds exactly the numbers queued |
| `EfcpTransmission.IgnoredControl` | rina-stack/kernel/dtcp.c:618-709 | after any run an old control PDU changes nothing, and a new one of another kind, or acknowledging a number not queued, only has its number remembered |
| `EfcpTransmission.EffectiveControl` | rina-stack/kernel/dtcp.c:451-594 | after any run any other control PDU removes exactly the entries numbered at or below its ACK, sets the right edge it carries, sends exactly the waiting PDUs up to that edge in order, stamped and queued, and moves the left edge |
| `EfcpTransmission.PushPlaces` | rina-stack/kernel/dtp-utils.c:524-580 | on any queue, ordered or not, a push goes to the tail, or behind the first smaller entry, and fails exactly if there is no such place or the number is met first |
| `EfcpTransmission.DropsCounted` | rina-stack/kernel/dtp-utils.c:627-637 | in every run drop_pdus is the number of PDUs dropped |
| `EfcpReceiverRuns.ReceiverOrderIff` | rina-stack/kernel/dtp.c:1636-1765 | for any arrivals and timer schedule each PDU posted is the successor of the one before and the left edge is the last one posted, exactly if A is 0 or the credit fits the 1000-slot ring |
| `EfcpReceiverRuns.RingOverflow` | rina-stack/kernel/dtp.c:1721-1739 | the arrivals that break the order when the credit does not fit: PDU 1, PDUs 3 .. 1002, then 2 |
| `EfcpReceiverRuns.AcksStrictlyIncrease` | rina-stack/kernel/dtcp.c:729-822 | the ACK numbers generated strictly increase, are numbered consecutively, never exceed the left edge, and the right edge is left edge plus credit |
| `EfcpReceiverRuns.EveryRunKeepsRInv` | rina-stack/kernel/dtp.c:549-645 | every receiver run keeps edges, acknowledgements and posted PDUs consistent |
| `EfcpDelivery.FirstArrival` | rina-stack/kernel/dtp.c:1585-1634 | after any run without an accepted PDU, a PDU with the data run flag is posted and sets the edges, and is acknowledged unless its number is 0; one without changes nothing |
| `EfcpDelivery.OutsideWindowIsDropped` | rina-stack/kernel/dtp.c:1636-1686 | a duplicate or an overrun changes nothing and is not answered |
| `EfcpDelivery.InOrderIsPosted` | rina-stack/kernel/dtp.c:1688-1765 | after any run, for any A, the successor of the left edge is the next PDU posted, followed by the held ones now in order as far as the ring takes them; the left edge passes all of them and exactly one control PDU acknowledges it; with A zero it is the only one posted |
| `EfcpDelivery.GapIsDropped` | rina-stack/kernel/dtp.c:1688-1708 | with A zero a PDU after a gap is dropped without an answer |
| `EfcpDelivery.OutOfOrderIsHeld` | rina-stack/kernel/dtp.c:321-377 | with A not zero a PDU after a gap is not posted or answered but held, stamped, at the tail or behind the first smaller entry of the queue, if there is such a place |
| `EfcpDelivery.NothingDeliverableWaits` | rina-stack/kernel/dtp.c:1731-1739 | in every run the head of the resequencing queue is never the successor of the left edge |
| `EfcpDelivery.ATimerPosts` | rina-stack/kernel/dtp.c:549-645 | after any run the A-timer drops the expired entries at the front, posts the others there, which are the successors of the left edge, stops at the first entry neither expired nor in order, and acknowledges the new left edge once if it moved |
| `EfcpDelivery.FirstUnexpired` | rina-stack/kernel/dtp.c:549-645 | so the first unexpired entry is posted and acknowledged if it is in order, and otherwise becomes the head with nothing posted or sent |
| `EfcpSystem.WindowAgreement` | rina-stack/kernel/dtcp.c:485-531 | in every two-party run the sender's right edge never moves back and, after the first accepted PDU, never exceeds the receiver's, so no PDU on the wire is an overrun |
| `EfcpSystem.AckSafetyIff` | rina-stack/kernel/dtcp-ps-default.c:100-130 | every number an ACK removed was posted or precedes the first accepted PDU, in every reachable state, exactly if A is 0 or the credit fits the ring |
| `EfcpSystem.AckSafety` | rina-stack/kernel/dtp-utils.c:410-430 | the same for each run, given that condition |
| `EfcpSystem.UnsafeRun` | rina-stack/kernel/dtp.c:1721-1765 | without it a run of genuine PDUs reaches a state where a PDU never posted has been acknowledged and dropped from the queue |
| `EfcpSystem.ContiguousIff` | rina-stack/kernel/dtp.c:1540-1769 | what the receiver posted is one contiguous run of what the sender's user wrote, data and order, in every reachable state, exactly if A is 0 or the credit fits the ring |
| `EfcpSystem.ContiguousDelivery` | rina-stack/kernel/dtp.c:1540-1769 | the same for each run, given that condition |
| `EfcpSystem.GapRun` | rina-stack/kernel/dtp.c:1721-1765 | without it a run of genuine PDUs posts PDUs 1 .. 1001 and then 1003 |
| `EfcpSystem.EveryNetRunKeeps` | rina-stack/kernel/dtcp.c:618-709 | every two-party run keeps the joint invariant |
| `EfcpConnection.Dtp.constructor` | rina-stack/kernel/dtcp.c:859-923 | initial edges and sequence numbers |
| `EfcpConnection.Dtp.RtxqueuePushNi` | rina-stack/kernel/dtp-utils.c:524-580 | the insertion loop computes the push on any queue, ordered or not, and counts it |
| `EfcpConnection.Dtp.RtxqueueEntriesAck` | rina-stack/kernel/dtp-utils.c:410-430 | the list loop removes the front up to the ACK and adjusts len |
| `EfcpConnection.Dtp.RtxqueueEntryTimestamp` | rina-stack/kernel/dtp-utils.c:498-521 | the lookup that decides whether an ACK is processed finds the number exactly if the scan meets it before a larger one |
| `EfcpConnection.Dtp.RtxqueueScan` | rina-stack/kernel/dtp-utils.c:620-671 | the timer's loop, removing and retrying in place, computes the scan; which entries it reaches, by their stamps and retries, says `RetransmittedIffDue` |
| `EfcpConnection.Dtp.RtxqueueRtx` | rina-stack/kernel/dtp-utils.c:595-719 | the scan, then the left window edge moved to the largest number dropped, as `RetransmittedIffDue` and `LeftEdgeFollowsDrops` state on the wire |
| `EfcpConnection.Dtp.RtxqueueEntriesNack` | rina-stack/kernel/dtp-utils.c:432-496 | the reverse loop computes the scan from the tail |
| `EfcpConnection.Dtp.CwqSendHead` | rina-stack/kernel/dtp-utils.c:245-291 | pops the head, queues it for retransmission and marks it sent |
| `EfcpConnection.Dtp.CwqDeliver` | rina-stack/kernel/dtp-utils.c:220-328 | the loop drains the queue within the right edge and sets window_closed |
| `EfcpConnection.Dtp.WindowIsClosed` | rina-stack/kernel/dtp.c:1218-1257 | closed exactly beyond the right edge, and remembered |
| `EfcpConnection.Dtp.DtpWrite` | rina-stack/kernel/dtp.c:1273-1440 | numbers the PDU, then queues it at a closed window or sends it and keeps a copy |
| `EfcpConnection.Dtp.SenderAck` | rina-stack/kernel/dtcp-ps-default.c:100-130 | removes the acknowledged front and moves the left edge |
| `EfcpConnection.Dtp.UpdateWindowAndRate` | rina-stack/kernel/dtcp.c:485-531 | sets the right edge and drains the closed-window queue |
| `EfcpConnection.Dtp.RcvAckAndFlowCtl` | rina-stack/kernel/dtcp.c:562-594 | ACK then window update, both skipped when the number is not in the queue |
| `EfcpConnection.Dtp.RcvAck` | rina-stack/kernel/dtcp.c:451-483 | an ACK is processed only when its number is in the queue |
| `EfcpConnection.Dtp.RcvNackCtl` | rina-stack/kernel/dtcp.c:415-449 | a NACK runs the scan from the tail and counts the drops |
| `EfcpConnection.Dtp.CommonRcvControl` | rina-stack/kernel/dtcp.c:618-709 | old control PDUs change nothing; each newer kind is dispatched; the receiving half is untouched |
| `EfcpConnection.Dtp.SeqQueuePushNi` | rina-stack/kernel/dtp.c:321-377 | the insertion loop of the resequencing queue |
| `EfcpConnection.Dtp.ArePdusReady` | rina-stack/kernel/dtp.c:1731-1739 | the drain loop moves the in-order front to the ring and the left edge with it |
| `EfcpConnection.Dtp.SvUpdate` | rina-stack/kernel/dtcp.c:1256-1324 | right edge from the left one, and one ACK when the left edge has moved |
| `EfcpConnection.Dtp.DtpReceive` | rina-stack/kernel/dtp.c:1540-1769 | first PDU, duplicates, overruns, A zero and non-zero, as the step of the receiver runs, whose effect the rows of `EfcpDelivery` state |
| `EfcpConnection.Dtp.ProcessAExpiration` | rina-stack/kernel/dtp.c:549-645 | the A-timer loop drops expired entries, posts in-order ones and stops at the first gap |
| `Delim.PiecesCover` | rina-stack/kernel/delim-ps-default.c:140-193 | the pieces of an SDU are all of it, in order, none longer than the limit, none empty unless the SDU is |
| `Delim.Fragment` | rina-stack/kernel/delim-ps-default.c:140-193 | the loop cuts those pieces and tags each with the flags of its place |
| `Delim.NumUdfs` | rina-stack/kernel/delim-ps-default.c:195-215 | the number of fragments, except that the empty SDU counts 0 though it makes one |
| `Delim.Reassembler.AppendPendingDu` | rina-stack/kernel/delim-ps-default.c:238-252 | adds a fragment to the payload collected and keeps the total length right |
| `Delim.Reassembler.Reset` | rina-stack/kernel/delim-ps-default.c:68-76 | forgets what was collected |
| `Delim.Reassembler.ProcessFirstFragment` | rina-stack/kernel/delim-ps-default.c:254-266 | starts over with this payload |
| `Delim.Reassembler.ProcessMidFragment` | rina-stack/kernel/delim-ps-default.c:268-279 | appends, or drops it when nothing is being collected |
| `Delim.Reassembler.Gather` | rina-stack/kernel/delim-ps-default.c:297-305 | the copy loop fills the new buffer with the pending payloads, in order |
| `Delim.Reassembler.ProcessLastFragment` | rina-stack/kernel/delim-ps-default.c:281-320 | emits what was collected plus this payload, or nothing |
| `Delim.Reassembler.ProcessUdf` | rina-stack/kernel/delim-ps-default.c:326-383 | dispatch on the flag bits, with the error cases |
| `Delim.FlagsDecide` | rina-stack/kernel/delim-ps-default.c:348-383 | the low four flag bits decide: 7, 5, 4 and 6 are a whole SDU, a first, a middle and a last fragment; any other value is refused and changes nothing |
| `Delim.WholeSdu` | rina-stack/kernel/delim-ps-default.c:220-383 | from any state all the fragments of one SDU emit exactly that SDU |
| `Delim.ReassemblyOfRun` | rina-stack/kernel/delim-ps-default.c:140-383 | any contiguous run of the fragments of any SDUs emits, from idle, exactly the SDUs wholly in the run, in order and byte for byte |
| `Delim.InsideIsPrefix` | rina-stack/kernel/delim-ps-default.c:140-383 | a run from the start holds a prefix of the SDUs, the whole stream all of them |
| `Delim.LostMiddle` | rina-stack/kernel/delim-ps-default.c:268-320 | without one middle fragment an SDU with that piece missing is emitted, so contiguity is needed |
| `EndToEnd.EfcpWrite` | rina-stack/kernel/efcp.c:303-342 | every fragment of an SDU is written to DTP, in order |
| `EndToEnd.SdusArriveIff` | rina-stack/kernel/efcp.c:899-948 | the far user gets exactly the SDUs whose fragments all lie between the first PDU accepted and the last posted, whole and in order, in every reachable state, exactly if A is 0 or the credit fits the ring |
| `EndToEnd.SdusArrive` | rina-stack/kernel/efcp.c:899-948 | the same for each run, given that condition |
| `EndToEnd.SdusArriveInOrder` | rina-stack/kernel/efcp.c:899-948 | given that condition, when the first PDU accepted is the first sent, a prefix of the SDUs written; when all is posted, all of them |
| `Cidm.Manager.Allocated` | rina-stack/kernel/cidm.c:79-95 | the list search finds exactly the live ids |
| `Cidm.Manager.Allocate` | rina-stack/kernel/cidm.c:97-134 | terminates while fewer than 65535 ids are live and returns the free id cyclically nearest after the last one allocated |
| `Cidm.Manager.Release` | rina-stack/kernel/cidm.c:136-163 | removes that id and no other; -1 only for a negative id |
| `Cidm.FreeIdIff` | rina-stack/kernel/cidm.c:113-119 | there is a free id to find exactly if fewer than 65535 are live |
| `Cidm.NearestUnique` | rina-stack/kernel/cidm.c:107-119 | the nearest free id is unique |
| `Cidm.WithoutKeeps` | rina-stack/kernel/cidm.c:150-158 | a release leaves the other ids live and distinct |
| `Cidm.LiveIdsDistinct` | rina-stack/kernel/cidm.c:97-163 | in every run the live ids are pairwise distinct and in 1 .. 65535 |
| `Cidm.NoEarlyReissue` | rina-stack/kernel/cidm.c:97-134 | between two issues of one id the cursor has travelled at least 65535, all the way round |
| `KfaRuns.DestroyedAtMostOnceAndUnused` | rina-stack/kernel/kfa.c:116-519 | in every interleaving no flow is destroyed twice, and every reader and writer outside the lock holds a live flow mapped at its port |
| `KfaRuns.DeallocatedFlowsAreReclaimed` | rina-stack/kernel/kfa.c:205-329 | a mapped deallocated flow has a user outside the lock, so the worker's destroy branch never fires; that the last user destroys it says `LastTaskDestroys` |
| `KfaRuns.MappedPortsStayReserved` | rina-stack/kernel/kfa.c:158-202 | a port with a mapped flow is reserved and stays so whoever releases it |
| `KfaRuns.ReaderFindsItsFlow` | rina-stack/kernel/kfa.c:937-943 | a reader that wakes finds the flow it went to sleep on |
| `KfaRuns.EveryRunKeepsInv` | rina-stack/kernel/kfa.c:84-1197 | the counters count the users, flows and ports are mapped one to one, and destruction is final, in every interleaving |
| `KfaLifecycle.DeallocateTakesDown` | rina-stack/kernel/kfa.c:266-329 | after any run deallocating a port destroys its flow at once and frees the port if no reader or writer is outside the lock with it; otherwise the flow is marked and the worker told |
| `KfaLifecycle.ClosingIsFrozen` | rina-stack/kernel/kfa.c:441-500 | after any run no read, write, post or gate on the port of a deallocated flow changes anything |
| `KfaLifecycle.LastTaskDestroys` | rina-stack/kernel/kfa.c:500-519 | after any run the step that ends the last task of a deallocated flow destroys the flow and frees its port; an earlier one leaves it deallocated |
| `KfaLifecycle.ClosingStays` | rina-stack/kernel/kfa.c:205-329 | whatever happens next, unless the port is bound again, the flow stays deallocated until it is destroyed |
| `KfaLifecycle.BindRevives` | rina-stack/kernel/kfa.c:1142-1197 | binding the port of a deallocated flow makes it allocated again |
| `KfaLifecycle.CreateOpens` | rina-stack/kernel/kfa.c:1100-1140 | a flow is created pending, unbound and unused, under an identity no flow, living or destroyed, has had |
| `KfaLifecycle.ReserveAndRelease` | rina-stack/kernel/kfa.c:84-203 | a port is reserved until released, and released only without a flow |
| `KfaLifecycle.BindOpens` | rina-stack/kernel/kfa.c:1142-1197 | a bind allocates the flow, whatever its phase, with an empty fifo |
| `KfaLifecycle.GateOpensAndCloses` | rina-stack/kernel/kfa.c:342-440 | writing is disabled in any phase but deallocated, and enabled again only from disabled |
| `KfaLifecycle.WriteBeginsIff` | rina-stack/kernel/kfa.c:441-500 | a writer leaves the lock if and only if the flow is allocated and the SDU is not too long |
| `KfaLifecycle.WriterLeaves` | rina-stack/kernel/kfa.c:500-519 | a writer that comes back leaves, and a flow not deallocated only loses it from its count |
| `KfaLifecycle.ReaderSleepsIff` | rina-stack/kernel/kfa.c:863-935 | a reader sleeps if and only if it may block and the flow, not deallocated, is pending or has an empty fifo |
| `KfaLifecycle.ReaderLeavesIff` | rina-stack/kernel/kfa.c:937-1009 | a reader that wakes leaves if and only if it gives up, the flow is deallocated, or there is something to read |
| `KfaLifecycle.FifoConserved` | rina-stack/kernel/kfa.c:863-1082 | after any run the fifo of a flow grows by one exactly when an SDU is posted to it bound and not deallocated, shrinks by one exactly when a reader takes one, is emptied by a bind, and changes in no other step |
| `Numbers.EncodeDecode` | rina-stack/kernel/pci.c:278-346 | a number that fits its width is read back from its bytes |
| `Pci.OffsetTableCreate` | rina-stack/kernel/pci.c:127-218 | the loop fills the table with each field's offset in the overlaid groups |
| `Pci.FieldsInOrder` | rina-stack/kernel/pci.c:127-218 | for any widths the fields of each PDU type lie one after another inside its size |
| `Pci.FieldsDisjoint` | rina-stack/kernel/pci.c:469-746 | the byte ranges the typed accessors use are pairwise disjoint and inside the size of the type |
| `Pci.RendezvousIsControlAck` | rina-stack/kernel/pci.c:469-488 | the rendezvous header has the size of the control ACK header whose offsets its accessors use |
| `PciLayout.BasePositions` | rina-stack/kernel/pci.c:127-218 | the bytes of the nine base fields, from the widths |
| `PciLayout.DataPositions` | rina-stack/kernel/pci.c:127-218 | the sequence number of data PDUs follows the base header, and ends it |
| `PciLayout.ControlPositions` | rina-stack/kernel/pci.c:127-218 | a control PDU's own number follows the base header, then the number acknowledged |
| `PciLayout.FlowPositions` | rina-stack/kernel/pci.c:520-640 | flow control: new right edge, own left, own right edge, rate, time frame, each at its distance from the base header, and the size |
| `PciLayout.AckFlowEdges` | rina-stack/kernel/pci.c:520-715 | ACK with flow control: last control number, new left, new right, own left, own right edge, each at its distance from the base header |
| `PciLayout.AckFlowRate` | rina-stack/kernel/pci.c:596-746 | the rate and time frame behind them, and the size |
| `PciLayout.ControlAckEdges` | rina-stack/kernel/pci.c:520-715 | control ACK and rendezvous: the same five without the number acknowledged |
| `PciLayout.ControlAckRate` | rina-stack/kernel/pci.c:596-746 | the rate and time frame behind them, and the size |
| `PciLayout.AbsentFields` | rina-stack/kernel/pci.c:491-746 | exactly which control fields each type lacks |
| `PciAccess.SetThenGet` | rina-stack/kernel/pci.c:278-424 | a setter makes its own field read the value and changes no other reading, unless it writes a type that takes other branches |
| `PciAccess.SetterExactIff` | rina-stack/kernel/pci.c:278-746 | with equal widths a setter is exact on every header of a type if and only if it is not the type setter, or the new type takes the same branches of every accessor |
| `PciAccess.SettersExactIff` | rina-stack/kernel/pci.c:492-746 | all setters so restricted are exact, for every type, header and field, if and only if the two sequence number widths are equal |
| `PciAccess.TypeWriteHidesAck` | rina-stack/kernel/pci.c:507-517 | turning any ACK header into a data header makes its acknowledgement read as (unsigned) -1 |
| `PciAccess.LastWriteWins` | rina-stack/kernel/pci.c:278-746 | after any sequence of setters whose type writes keep the branches, every getter returns the last value written to its field |
| `PciAccess.SequencesReadBackIff` | rina-stack/kernel/pci.c:278-746 | with equal widths, every sequence drawn from a set of setters reads back on every header of a type if and only if each type write in the set takes the same branches |
| `Pci.StoreInPlace` | rina-stack/kernel/pci.c:310-326 | the store by width, in the header buffer |
| `PciAccess.FormatReads` | rina-stack/kernel/pci.c:426-450 | formatting room for a header, whatever it held, gives a header of the type that reads back every field given to it |
| `Du.DataUnit.Encap` | rina-stack/kernel/du.c:144-155 | pushes the header's size in front and leaves the payload behind it |
| `Du.DataUnit.PciSet` | rina-stack/kernel/pci.c:310-346 | a setter through the header pointer |
| `Du.DataUnit.PciFormat` | rina-stack/kernel/pci.c:426-450 | the ten setters, in place |
| `Du.DataUnit.TailShrink` | rina-stack/kernel/du.c:273-277 | drops bytes at the end |
| `Du.DataUnit.Decap` | rina-stack/kernel/du.c:158-185 | refuses unknown types, trims to the length field and takes the header off |
| `Du.EncapDecap` | rina-stack/kernel/du.c:144-185 | encapsulate, format with the total length, append any padding, decapsulate: the payload and the header come back and every field reads as given |
| `Du.DecapRefuses` | rina-stack/kernel/du.c:163-174 | refused exactly if the type has no layout |
| `Du.FormatKeepsPayload` | rina-stack/kernel/dtp.c:1311-1332 | formatting never touches the payload |
| `Serdes.SerLenExact` | rina-stack/common/serdes-utils.c:97-121 | serlen is exactly the number of bytes written, for every value |
| `Serdes.RoundTripIff` | rina-stack/common/serdes-utils.c:97-151 | reading what was written gives the value back with the cursor at whatever follows, exactly if every string, list and number fits |
| `Serdes.ReadInBounds` | rina-stack/common/serdes-utils.c:135-151 | whatever the bytes, what is read is in bounds |
| `Serdes.MessagesRoundTrip` | rina-stack/common/serdes-utils.c:3030-4233 | policies, forwarding-entry lists, RIB responses, neighbour lists and media reports read back equal and move the cursor by serlen |
| `SerdesLayout.NameBytes` | rina-stack/common/serdes-utils.c:106-121 | a name is four strings in order, 8 bytes besides their contents |
| `SerdesLayout.PolicyBytes` | rina-stack/common/serdes-utils.c:654-692 | name, version, 16-bit number of parameters, parameters |
| `SerdesLayout.PolicyParmBytes` | rina-stack/common/serdes-utils.c:591-605 | name and value |
| `SerdesLayout.RibObjectBytes` | rina-stack/common/serdes-utils.c:3030-3049 | eight bytes of instance first, then name, class and displayable value, and the serlen |
| `SerdesLayout.PortIdsLength` | rina-stack/common/serdes-utils.c:3197-3220 | a list of port ids takes 2 bytes and 4 for each |
| `SerdesLayout.PffEntryBytes` | rina-stack/common/serdes-utils.c:3262-3300 | four bytes of address, two of QoS id, four of cost, the alternatives, and the serlen |
| `SerdesLayout.NeighborNumberBytes` | rina-stack/common/serdes-utils.c:3767-3781 | the eight numbers of a neighbour in order: four of four bytes, one of one, three of four |
| `SerdesLayout.NeighborBytes` | rina-stack/common/serdes-utils.c:3748-3795 | these 29 bytes, two names, the supporting DIFs, and the serlen |
| `SerdesLayout.BaseStationBytes` | rina-stack/common/serdes-utils.c:3983-3997 | four bytes of signal strength, the address |
| `SerdesLayout.MediaDifBytes` | rina-stack/common/serdes-utils.c:4030-4068 | DIF name, security policies, base stations |
| `SerdesLayout.MediaReportBytes` | rina-stack/common/serdes-utils.c:4144-4182 | two bytes of process id, DIF name, station address, and per DIF its name and entry |
| `SerdesCursor.Cursor.SerializeString` | rina-stack/common/serdes-utils.c:123-132 | writes the length and at most 65535 bytes at the cursor and nothing else |
| `SerdesCursor.Cursor.SerializePolicyParm` | rina-stack/common/serdes-utils.c:599-605 | name and value, at the cursor |
| `SerdesCursor.Cursor.SerializePolicy` | rina-stack/common/serdes-utils.c:672-692 | the count and write loops put the policy's bytes at the cursor, move it by serlen and change nothing else |
| `SerdesCursor.Cursor.CountParms` | rina-stack/common/serdes-utils.c:682-685 | the 16-bit count wraps |
| `SerdesCursor.Cursor.DeserializeString` | rina-stack/common/serdes-utils.c:135-151 | reads a string and moves past it |
| `SerdesCursor.Cursor.DeserializePolicyParm` | rina-stack/common/serdes-utils.c:607-619 | reads name and value |
| `SerdesCursor.Cursor.DeserializePolicy` | rina-stack/common/serdes-utils.c:694-727 | the read loop gives the policy back and leaves the cursor behind it |

## Left out

- MINIP handshake and teardown: runs begin in the established state; a close stops delivery for good.
- Liveness of either transport: that what is sent arrives under a fair network is not proved; what each event does is, and when MINIP falls silent for good.
- Partial send failure in MINIP: allocation and hand-off to the device succeed; a silent drop is a loss on the wire.
- Sequence number wrap-around: numbers are unbounded in both transports.
- Rate-based flow control, rendezvous, and the sender and receiver inactivity timers of EFCP: one data run, window-based, retransmission control on, maximum SDU gap 0.
- Handlers of one connection running at the same time: each handler or locked region is one step.
- The `cwq` length limit and disabling of writes at a full queue: the queue takes every PDU, as the source's policy does after disabling the port.
- EfcpConnection.Dtp.DtpWrite: does not model starting the rendezvous timer at a closed window, nor the limit of the closed-window queue.
- EfcpConnection.Dtp.RtxqueueRtx: does not model starting the rendezvous timer after a drop.
- EfcpConnection.Dtp.CwqDeliver: does not model re-enabling writes on the port.
- EfcpConnection.Dtp.UpdateWindowAndRate: does not model cancelling the rendezvous timer.
- EfcpConnection.Dtp.CommonRcvControl: does not model rendezvous PDUs, which only advance the control sequence number here.
- The DTCP round-trip estimator: only whether it finds the PDU matters to the model.
- The payload of KFA's SDU fifo: its length is modelled, the SDUs are not; `kfa_flow_ub_write`, polling and wait queues are left out.
- Kfa.Instance.FlowCreate: on a mapped port the source would add a second entry where the model overwrites; runs create a flow only on a reserved port without one, as its callers do after reserving; the source does not check it.
- Cidm.Manager.Allocate: does not model a failed allocation of the list entry, nor the endless loop when every id is live.
- Delim.NumUdfs: does not model fragment sizes of 2^31 or more, where the source's mixed signed arithmetic wraps.
- Numbers.EncodeDecode: does not model a big-endian host, where the same bytes are stored in the other order on both sides.
- PciAccess.FormatReads: does not model the narrowing of a getter's result to a C type narrower than its field, such as a QoS id stored in four bytes.
- Du.DataUnit.Encap: the buffer has headroom for the header; reallocation by the kernel is left out.
- Du.DataUnit.Decap: a received PDU holds at least the base fields; the source does not check it.
- Serdes.MessagesRoundTrip: null names and null records, message dispatch, and the flow-control configuration, whose writer and reader order its policies differently, are left out; signed numbers are their bit patterns.
- The cursor form of the serialisers other than policies: they repeat the same loop over other records, and are modelled by their shapes only.
- Locks, RCU, reference counts, sysfs, netlink, policy-set selection, the CCN simulator: plumbing outside these models.
