# Verified model of the streaming and tracing core

This project models, in Dafny, the parts of the repository whose correctness the measurements rest on, and proves what
they are for.

* **Receive path.** The RFC 6184 depacketizer as a class over three rotating byte arrays (`Depacketizer.dfy`), proved
  equal, packet by packet, to functions on values (`DepackSpec.dfy`). `Packetisation.dfy` describes any conforming
  sender in the non-interleaved mode of RFC 6184; `Reception.dfy` puts a network between them that may drop, repeat and
  reorder at will. `Delivery.dfy`, `RoundTrip.dfy`, `Packetiser.dfy`, `LossAccounting.dfy`, `FragmentAccounting.dfy`
  and `BufferUse.dfy` hold the theorems about every such run, and `OverlongAccessUnit.dfy` the exact limit of one of
  them; `EventAccounting.dfy` says what every event is made of when the packets are arbitrary. `RtpHeader.dfy` is the
  RTP header parser, `AnnexBIndex.dfy` the index of access units of a pre-encoded file.
* **Trace ring.** `TraceRing.dfy`: every atomic load, compare-and-swap, row copy (torn copies included) and store of any
  number of producers and of the flusher is one step; the theorems hold for every interleaving.
* **Start handshake.** `ControlSpec.dfy` and `ControlServer.dfy`: the control server's dictionaries, as functions and as
  classes. `HandshakeClients.dfy`: the sender's and the receiver's end. `HandshakeServer.dfy`: what every message keeps in
  the tables. `Handshake.dfy`: any number of processes, with messages lost, delayed, repeated and reordered and
  connections that break and are replaced at any time. `HandshakeSafety.dfy`: the safety theorems and their exact
  conditions. `HandshakeRouting.dfy`: which messages the server owes its clients, and how long a handshake is pending.
* **Capture grid.** `CaptureTimeline.dfy`: the shared content timeline and the checks on the rung files.
  `CaptureGrid.dfy`: the clock-driven loop with catch-up and the rung switch, and when a slot is sent and when it is
  missed, for any clock that does not run backwards and any moment of being stopped.
* **RTCP and seqlock.** `Rtcp.dfy`: the strict compound validator against the packet grammar of section 6 of RFC 3550.
  `Seqlock.dfy`: the per-frame arrival summary, step by step, with one writer and a reader.

Code that updates fields in place is a class whose methods are proved equal to functions on values; the theorems are
about these functions. The two lock-free structures are machines on values, because their subject is the order of
single steps of several threads: a run is any list of actions, and an action that cannot happen changes nothing.

Conventions. An octet is an `int`; where its range matters a contract asks for `Octets`. Sequence numbers are 16 bits
wide and timestamps 32 bits wide, with their wrap-around; all other counters are unbounded. Shifts and masks are written
as divisions and remainders. Clocks, arrival times, the muxer's answers and the requested rung are parameters.

Where code and documentation differ, the model follows the code:

* The ring's description says that a row is dropped when the producers outrun the flusher. The code also drops a row
  while the ring is empty, if its producer slept between its two loads (`TraceRing.DropWhileEmpty`); the exact condition
  is `TraceRing.OverflowIff`.
* Section 5.1 of RFC 3550 has the padding count its own byte. The parser also accepts a P bit with a last byte of zero;
  `RtpHeader.Rtp` therefore allows empty padding. These are exactly the accepted datagrams that do not conform
  (`RtpHeader.ConformsIff`); `RtpHeader.BarePaddingIsAccepted` is one.
* A receiver treats the empty stream name as "no stream yet", and takes up a second stream after one. A sender of the
  unnamed stream is still served after it started exactly when no sender that may share its receiver offers anything
  else (`HandshakeSafety.ServedIff`); `HandshakeSafety.Usurped` is the run that fails.
* The fragment count is right in every run if and only if packets of one timestamp are at most 62536 packets apart
  (`OverlongAccessUnit.FragmentsCountedIff`). In an access unit with one packet more, its first packet, repeated after
  the last one before the marker, looks newer, and the count exceeds the damaged NAL units
  (`OverlongAccessUnit.FragmentsOvercounted`).

## Model

| member | source | states |
|---|---|---|
| Depacketizer.H264Depacketizer.Push | ffmpeg/apps/common/rtp_util.h:278-331 | one packet changes the fields and buffers exactly as the value-level step says; at most two access units end, each in a buffer of its own that is not the assembly buffer and holds the event's bytes; a rejected packet leaves every buffer and the assembly as they were |
| Depacketizer.H264Depacketizer.Emit | ffmpeg/apps/common/rtp_util.h:339-350 | the event of the open access unit without its partial NAL unit, in the buffer it was assembled in; it refuses exactly when nothing happened under the timestamp |
| Depacketizer.H264Depacketizer.Append | ffmpeg/apps/common/rtp_util.h:353-353 | bytes go to the end of the current buffer, or the access unit becomes damaged and its bytes stay |
| Depacketizer.H264Depacketizer.StapA | ffmpeg/apps/common/rtp_util.h:306-313 | the aggregation units are appended in order up to the first malformed size |
| Depacketizer.H264Depacketizer.FuA | ffmpeg/apps/common/rtp_util.h:314-324 | a start fragment replaces an FU that is still open and counts it as lost; a fragment without an open FU is counted once per run |
| Depacketizer.H264Depacketizer.Classify | ffmpeg/apps/common/rtp_util.h:281-290 | a step of -100 to 0 is late, of 1 to 3000 progress, any other a reset that ends the open access unit |
| Depacketizer.H264Depacketizer.EndOnNewTimestamp | ffmpeg/apps/common/rtp_util.h:292-295 | a new timestamp ends the open access unit and charges the gap to it; the emission never refuses |
| Depacketizer.H264Depacketizer.FromBuffers | ffmpeg/apps/common/rtp_util.h:263-263 | three distinct buffers of the caller become the rotation, with nothing received yet |
| Packetisation.ReadUnit | ffmpeg/apps/common/rtp_util.h:301-328 | the depacketizer reads back from the wire form of any single NAL unit packet, STAP-A or FU-A what the sender put into it |
| Packetisation.ReadStap | ffmpeg/apps/common/rtp_util.h:306-313 | the loop over a STAP-A payload appends exactly the aggregated NAL units, in order |
| Reception.ObserveConsistent | ffmpeg/apps/common/rtp_util.h:278-331 | the invariant of a run: an open FU is its start fragment and consecutive next fragments, and the assembly is what its accepted packets make of it; any delivery keeps it |
| Reception.RunConsistent | ffmpeg/apps/common/rtp_util.h:278-354 | that invariant after any loss, repetition and reordering of any conforming stream |
| Reception.NextInTimestamp | ffmpeg/apps/common/rtp_util.h:282-284 | within one timestamp a 16-bit step of one is exactly the next sent packet, when no two packets share sequence number and timestamp |
| Delivery.DeliversWholeNals | ffmpeg/apps/common/rtp_util.h:278-354 | an undamaged event holds, in order, exactly the NAL units of which every packet was accepted, each sent under the event's timestamp; never part of one |
| Delivery.CompleteIsWhole | ffmpeg/apps/common/rtp_util.h:278-350 | a complete event ends at the marker and is the whole access unit if and only if the access unit's first packet was accepted into it |
| Delivery.HeadLossCanBeCharged | ffmpeg/apps/common/rtp_util.h:238-242 | the admitted limit, as a concrete run: a gap over one tail and the next head is charged to the first, and the second is reported complete without its first NAL unit |
| EventAccounting.EventsAreExact | ffmpeg/apps/common/rtp_util.h:278-350 | for any packets at all: the events are the maximal stretches of accepted packets of one access unit, in order and without a packet left out; arrivals, packet count and lost packets (head gap after a seen marker, gaps inside, tail gap otherwise) are theirs; damaged if and only if a packet is malformed or of a forbidden type, or the NAL units so far outgrow the buffer; the IDR flag if and only if a packet holds or begins a NAL unit of type 5; complete if and only if the marker was seen and there are bytes, no loss and no damage |
| BufferUse.BytesAreExact | ffmpeg/apps/common/rtp_util.h:278-354 | for conforming streams under any loss, repetition and reordering: the bytes of every event, damaged or not, are those that the pieces of the fully received NAL units leave in the buffer when each piece that does not fit is skipped |
| BufferUse.WhatFitsIsWhole | ffmpeg/apps/common/rtp_util.h:278-354 | if the bytes that an event's packets can add fit the buffer, then the event is not damaged, whatever was lost, and holds exactly the fully received NAL units, each sent under its timestamp |
| RoundTrip.InOrderIsIntact | ffmpeg/apps/common/rtp_util.h:229-354 | any conforming stream received in order gives one event per access unit, in order, complete, with its bytes, its IDR flag, its packet count and no loss |
| RoundTrip.TakeUnharmed | ffmpeg/apps/common/rtp_util.h:296-328 | the next packet of an access unit that fits the buffer neither damages it nor loses a fragment |
| Packetiser.StreamConforms | ffmpeg/apps/common/rtp_util.h:229-232 | every way to cut access units into single NAL unit packets, STAP-As and FU-As is a conforming stream with exactly these access units |
| Packetiser.SentIsReported | ffmpeg/apps/common/rtp_util.h:229-354 | round trip from access units to events, for every packetisation, first sequence number and timestamps, across both wraps |
| LossAccounting.LossIsConserved | ffmpeg/apps/common/rtp_util.h:281-300 | while packets stay within 100 behind and 3000 ahead of the newest, packets received and packets lost, in events and in the open access unit, are exactly the positions from the first to the newest, and exactly the repeated or overtaken packets are dropped |
| LossAccounting.NoResetIff | ffmpeg/apps/common/rtp_util.h:281-300 | over every run of any packets: there was no sequence reset if and only if the packets have true positions in this window, and these positions give the totals |
| LossAccounting.ResetIffOutsideWindow | ffmpeg/apps/common/rtp_util.h:281-290 | a reset happens if and only if the true step is below -100 or above 3000; a packet is rejected if and only if it is 0 to 100 behind, and then only a counter changes |
| LossAccounting.StepIsExact | ffmpeg/apps/common/rtp_util.h:282-282 | the signed 16-bit difference is the true step whenever that fits 16 bits |
| LossAccounting.PushSums | ffmpeg/apps/common/rtp_util.h:283-300 | one packet adds itself and the gap before it to the totals, whatever it ends; a late one adds nothing |
| OverlongAccessUnit.FragmentsCountedIff | ffmpeg/apps/common/rtp_util.h:281-340 | for all capacities, conforming streams with packets of one timestamp less than n packets apart, first sequence numbers and deliveries: lost fragments are, in every event, exactly the fragmented NAL units accepted in part, one whose start is missing and that came right after an unfinished one counting as one with that, and positive exactly when some accepted fragment belongs to one, if and only if n <= 62537 |
| FragmentAccounting.EveryEventIsCounted | ffmpeg/apps/common/rtp_util.h:299-340 | the direction that the accounting holds, for every event of every run of such a stream |
| OverlongAccessUnit.FragmentsOvercounted | ffmpeg/apps/common/rtp_util.h:281-340 | the other direction, as a run of a conforming access unit of 62538 packets that is reported with two lost fragments while one NAL unit was accepted in part |
| FragmentAccounting.CountedExtend | ffmpeg/apps/common/rtp_util.h:299-324 | every packet keeps the count equal to the runs of NAL units accepted in part, without the open one, and the orphan flag set exactly inside such a NAL unit |
| FragmentAccounting.BrokenSnoc | ffmpeg/apps/common/rtp_util.h:314-324 | how one more accepted packet changes the set of NAL units accepted in part |
| FragmentAccounting.GatheredIff | ffmpeg/apps/common/rtp_util.h:316-324 | a fragment finds its FU open exactly when all fragments before it were accepted |
| RtpHeader.ParseRtp | ffmpeg/apps/common/rtp_util.h:102-123 | a datagram is accepted if and only if it is the wire form of some RTP packet, and the report is that packet's fields, payload and padding |
| RtpHeader.WireIsRead | ffmpeg/apps/common/rtp_util.h:102-123 | round trip: the wire form of any packet parses, and to that packet, so that the fields are determined by the bytes |
| RtpHeader.ReadIsWire | ffmpeg/apps/common/rtp_util.h:102-123 | whatever passes the parser's tests is the wire form of the fields read from it |
| RtpHeader.ConformsIff | ffmpeg/apps/common/rtp_util.h:117-118 | an accepted datagram conforms to section 5.1 of RFC 3550 if and only if it does not have the P bit and a last byte of zero |
| RtpHeader.BarePaddingIsAccepted | ffmpeg/apps/common/rtp_util.h:117-118 | a concrete datagram of 12 bytes that is accepted and does not conform |
| AnnexBIndex.NextStartCode | ffmpeg/apps/common/rtp_util.h:194-202 | the first NAL unit header after a start code, three or four bytes long, at or after an offset; a start code at the very end does not count |
| AnnexBIndex.IndexAccessUnits | ffmpeg/apps/common/rtp_util.h:205-227 | errors exactly when there is no start code, or the first NAL unit is no delimiter; otherwise the access units tile the file from its first start code, each begins at a delimiter, holds no other, and has the flag exactly when an IDR NAL unit is inside |
| AnnexBIndex.TilesCover | ffmpeg/apps/common/rtp_util.h:205-227 | the access units put together are the file from its first start code to its end |
| AnnexBIndex.IndexIsUnique | ffmpeg/apps/common/rtp_util.h:205-227 | there is only one such index, so that the contract of the indexer determines its result |
| AnnexBIndex.DelimitersBeginUnits | ffmpeg/apps/common/rtp_util.h:213-215 | every delimiter in the file begins an access unit |
| TraceRing.RowsInClaimOrder | ffmpeg/apps/common/trace_ring.h:61-140 | in every interleaving the file is the rows of the first claims, in claim order, each once and unmodified, and consumed <= claimed <= consumed + capacity |
| TraceRing.OwnersApart | ffmpeg/apps/common/trace_ring.h:73-78 | two producers that hold claims have different physical slots, neither published nor flushed |
| TraceRing.PublishedRowStays | ffmpeg/apps/common/trace_ring.h:73-78 | no step of any thread writes a slot with a published row before that row is in the file |
| TraceRing.StepKeepsInv | ffmpeg/apps/common/trace_ring.h:61-140 | every single step of every thread keeps the ring's invariant |
| TraceRing.WriteAlone | ffmpeg/apps/common/trace_ring.h:61-79 | from any reachable state, a call that no other thread interrupts counts its row as late if the ring is closed and as overflow if it is full, and otherwise puts it, published, into the next slot; nothing else changes |
| TraceRing.FlushStopsAtGap | ffmpeg/apps/common/trace_ring.h:115-131 | whatever the producers do meanwhile, a flush stops writing only at a moment when all rows before row m are in the file and slot m is not published, or m is the claimed count that the flush loaded; m becomes the consumed count |
| TraceRing.FlushAlone | ffmpeg/apps/common/trace_ring.h:115-140 | from any reachable state, a flush that no producer interrupts ends with the consumed count at the first unpublished row or at the claimed count, all rows before it in the file, their slots freed and nothing else changed; the final footer has the unpublished rest |
| TraceRing.FooterAccounts | ffmpeg/apps/common/trace_ring.h:131-138 | in every run the rows of the file and the unpublished rows of the footer add up to the claimed count that the final flush loaded, and the dropped rows in it lie between the counts when that flush began and those at the end |
| TraceRing.OverflowIff | ffmpeg/apps/common/trace_ring.h:63-76 | a row is dropped as overflow exactly when the ring is full, or when the consumed count has overtaken the claimed count that the producer had loaded; as late exactly when the ring is closed at the check; no failed compare-and-swap drops a row |
| TraceRing.DropWhileEmpty | ffmpeg/apps/common/trace_ring.h:67-72 | a concrete run that drops a row while the ring is empty |
| TraceRing.NothingLostAtShutdown | ffmpeg/apps/common/trace_ring.h:84-95 | if at some moment after `Close` and before the final flush no producer can claim any more, then every claimed row is in the file, none is unpublished, and the footer counts every call decided by then; with no other calls, rows, overflow and late add up to the calls, and a footer without errors means one row per call |
| TraceRing.CompleteIff | ffmpeg/apps/common/trace_ring.h:84-95 | that condition is exact: every way to go on leaves every claimed row in the file and every overflow in the footer if and only if no producer owns a slot or can still claim one |
| TraceRing.LostAfterClose | ffmpeg/apps/common/trace_ring.h:84-95 | a concrete run in which a row claimed after the final flush began is in no counter of a clean footer |
| TraceRing.StepShutsDown | ffmpeg/apps/common/trace_ring.h:61-140 | every step keeps the account of calls and the state of a ring that is shutting down |
| TraceRing.RoundUpPow2 | ffmpeg/apps/common/trace_ring.h:103-107 | the capacity is the smallest power of two that is large enough |
| ControlServer.Session.DropPendingOf | ffmpeg/apps/control/control_server.py:123-126 | exactly the pending handshakes of this connection, in either role, are removed |
| ControlServer.Session.BeginHandshake | ffmpeg/apps/control/control_server.py:128-141 | a stream-start is bound to the receiver connection it goes to, to its sender connection and to a new generation |
| ControlServer.Session.EndHandshake | ffmpeg/apps/control/control_server.py:151-165 | an acknowledgement is passed on only for the pending connection and generation, and only while the sender that began still holds the stream |
| ControlServer.ControlServer.RegisterSender | ffmpeg/apps/control/control_server.py:97-108 | the stream passes to this connection, handshakes of a replaced one die, and every receiver of the session is announced to it; no other session changes |
| ControlServer.ControlServer.RegisterReceiver | ffmpeg/apps/control/control_server.py:109-121 | the same for a receiver id, announced to every sender of the session |
| ControlServer.ControlServer.RouteStreamAck | ffmpeg/apps/control/control_server.py:145-165 | only registered receivers acknowledge; the new tables and the messages sent are those of the value-level handler |
| ControlServer.ControlServer.Dispatch | ffmpeg/apps/control/control_server.py:75-87 | whatever a connection sends, the tables and the messages sent out are those of the value-level handler; a stream-start of an unregistered connection closes it |
| ControlServer.ControlServer.Unregister | ffmpeg/apps/control/control_server.py:177-190 | the tables after the end of a connection are those of the value-level handler, with all other sessions unchanged |
| HandshakeClients.SenderControl.OnMessage | ffmpeg/apps/sender/video_sender.cc:402-428 | the sender offers its stream to the receiver it names once, and starts only on an acknowledgement it awaits |
| HandshakeClients.ReceiverControl.OnMessage | ffmpeg/apps/receiver/video_receiver.cc:226-252 | the receiver takes up the first stream it is offered, refuses any other, and does not answer a repeated offer |
| HandshakeClients.SenderRun | ffmpeg/apps/sender/video_sender.cc:402-428 | over every list of messages, exactly: the sender has offered its stream, once, if and only if its receiver was announced, and its destination is the address announced first; with j the first answer for its stream after that, it has started if and only if j accepted, failed if and only if j refused, and awaits an answer if and only if there was none |
| HandshakeClients.ReceiverRun | ffmpeg/apps/receiver/video_receiver.cc:226-252 | whatever a receiver is sent, it serves the first named stream it was offered, with the SSRC of that offer; it accepts every offer until then, leaves a repeated one unanswered and refuses every other |
| HandshakeSafety.StartedIsServed | ffmpeg/apps/sender/video_sender.cc:402-428 | safety over all runs: if the grid of a sender of a named stream is started, the very receiver process whose acknowledgement it got, on a handshake it began itself, serves that stream with its SSRC |
| HandshakeSafety.ServedIff | ffmpeg/apps/receiver/video_receiver.cc:226-252 | this holds in every run if and only if the stream has a name, or no sender that may share a receiver with this one offers another stream or SSRC |
| HandshakeSafety.Usurped | ffmpeg/apps/receiver/video_receiver.cc:226-252 | for any sender of the unnamed stream and any other sender of its receiver there is a run in which the receiver takes up the other stream after the first one started |
| HandshakeSafety.DestinationAgreesIff | ffmpeg/apps/sender/video_sender.cc:404-418 | a started sender sends, in every run, to the address of the receiver process whose acknowledgement it got, if and only if the receivers it may be connected to have one address, an absent host being that of the control server |
| HandshakeSafety.TwinsDisagree | ffmpeg/apps/control/control_server.py:109-117 | for any two receivers of one id there is a run in which one of them acknowledges and serves, and the sender sends to the other, which was replaced |
| HandshakeSafety.AcksAreDelivered | ffmpeg/apps/control/control_server.py:145-165 | an acknowledgement is passed on only from the connection that was handed the stream-start to the one that issued it, and only while neither was replaced or ended |
| HandshakeSafety.AcksOnce | ffmpeg/apps/control/control_server.py:151-165 | in any run at most one acknowledgement of a session and generation is passed on |
| HandshakeSafety.PendingIsLive | ffmpeg/apps/control/control_server.py:123-139 | in every run both connections of a pending handshake are registered and open, and the receiver still holds its id |
| HandshakeRouting.AckIsPassedOn | ffmpeg/apps/control/control_server.py:145-165 | in every run, when the receiver connection of a pending handshake answers with its generation and the sender that began it still holds the stream, exactly one message goes out: the same answer, accepting or refusing, to that sender; the handshake is then over |
| HandshakeRouting.PendingEndsIff | ffmpeg/apps/control/control_server.py:97-190 | in every run, an action ends or replaces a pending handshake if and only if it is its answer, a new registration for its stream or receiver id while its connection holds that, a stream-start of the stream to a known receiver, or the end of one of its connections |
| HandshakeRouting.EveryoneIsIntroduced | ffmpeg/apps/control/control_server.py:97-121 | in every run, every registered sender of a session has been sent the address of every registered receiver of it, whichever came first |
| HandshakeRouting.StartIsPassedOn | ffmpeg/apps/control/control_server.py:128-141 | in every run, the stream-start of a registered sender goes to the open connection that holds the receiver id and to no other, with the sender's own stream and SSRC and a generation above all earlier ones, and is then pending between the two; to an unknown receiver it changes nothing |
| HandshakeServer.HandleKeepsServer | ffmpeg/apps/control/control_server.py:97-165 | every message keeps the tables consistent with the handshakes begun: pending receivers are the registered ones, generations are never reused |
| HandshakeServer.DisconnectSparesOthers | ffmpeg/apps/control/control_server.py:177-190 | the end of a connection removes exactly its own entries and the pending handshakes it takes part in, in every session; a stale one never evicts its replacement |
| Handshake.StepKeepsInv | ffmpeg/apps/control/control_server.py:97-190 | every action of any process, of the server or of the network keeps the system invariant |
| CaptureTimeline.ContentIsShared | ffmpeg/apps/sender/video_sender.cc:348-351 | in every slot, of either sign and with any phase, each camera sends the content frame of the shared timeline, wherever its file starts |
| CaptureTimeline.IdrSlots | ffmpeg/apps/sender/video_sender.cc:349-352 | with IDRs at the multiples of g, slot k is an IDR if and only if k + phase - origin is 0 modulo g |
| CaptureTimeline.IdrsMeetIff | ffmpeg/apps/sender/video_sender.cc:306-308 | two cameras of one phase have an IDR in a common slot if and only if their origins agree modulo g |
| CaptureTimeline.CheckRungs | ffmpeg/apps/sender/video_sender.cc:157-189 | the files pass if and only if all rungs have the same frames and IDR positions, begin with an IDR, the origin is in range and the start bitrate is one of them |
| CaptureTimeline.FindRung | ffmpeg/apps/sender/video_sender.cc:432-436 | the last rung with the requested bitrate, or none exactly if there is none |
| CaptureGrid.Grid.NextIdrSlot | ffmpeg/apps/sender/video_sender.cc:327-327 | the search ends within one loop of the file, at the first IDR slot from there on |
| CaptureGrid.Grid.FirstSlot | ffmpeg/apps/sender/video_sender.cc:324-330 | the first IDR slot that is not in the past at the clock reading, less than one loop of the file away |
| CaptureGrid.Grid.EmitSlot | ffmpeg/apps/sender/video_sender.cc:358-387 | the rung changes only at an IDR, to the one requested at that time; the row says what was sent |
| CaptureGrid.Grid.GridLoop | ffmpeg/apps/sender/video_sender.cc:311-347 | for any clock and any stop: rows have consecutive indices and slots from the first IDR slot; each sent slot was current at the reading before it and carries the frame of the shared timeline, each missed one had passed; every row belongs to a turn whose wait ended at the first reading not before its slot, turns follow each other without a gap, only the stop request ends them, and every slot that had passed at exit has its row |
| CaptureGrid.MissedHadNoChance | ffmpeg/apps/sender/video_sender.cc:331-343 | when a slot must be sent: for a slot missed before the stop request, the first reading of that wait that reaches the beginning of the slot is followed by a reading at or after its end |
| CaptureGrid.NoneMissed | ffmpeg/apps/sender/video_sender.cc:331-346 | with a clock whose steps are at most a sixth of a slot and a start in time, every turn of the loop sends the very slot that it waited for, and none is missed before the stop request |
| CaptureGrid.SentUntilStopped | ffmpeg/apps/sender/video_sender.cc:331-346 | after the last sent slot the loop ends only by the stop request: the next slot had not begun four points before it |
| CaptureGrid.RungChangesAtIdr | ffmpeg/apps/sender/video_sender.cc:362-367 | between consecutive sent slots the rung changes only if the later one is an IDR |
| CaptureGrid.OneRungBetweenIdrs | ffmpeg/apps/sender/video_sender.cc:362-368 | all frames sent between two IDR positions come from one rung |
| CaptureGrid.RequestedRungInUse | ffmpeg/apps/sender/video_sender.cc:362-368 | a requested rung is in use from the first IDR sent after the request until another is requested |
| Rtcp.IsValidRtcpCompoundFrom | gstreamer/apps/common/gst_util.h:290-325 | a buffer is accepted if and only if it is the wire form of a list of valid RTCP packets, only the last of them padded, the first a report from this SSRC |
| Rtcp.FillRtcpRow | gstreamer/apps/common/gst_util.h:245-266 | for every buffer, the row holds the types and counts of the packets from its start on, up to eight and up to the first one of another version or that ends outside the buffer, and the word after the first header if the first packet holds it; in a buffer that the validator accepts these are its packets and its SSRC |
| Rtcp.WireFits | gstreamer/apps/common/gst_util.h:296-313 | the tests on one packet accept every valid packet, and determine its fields |
| Rtcp.FitsIsWire | gstreamer/apps/common/gst_util.h:296-313 | what passes these tests is the wire form of a valid packet |
| Seqlock.LookupIsCoherent | gstreamer/apps/receiver/video_receiver.cc:235-286 | in every interleaving, a lookup that succeeds returns the state after one finished write during the lookup: the packets of that frame since the slot was opened, their earliest arrival and the newest |
| Seqlock.EntryIsSummary | gstreamer/apps/receiver/video_receiver.cc:241-258 | an entry and the packets of its frame since the slot was opened determine each other |
| Seqlock.StoresExtend | gstreamer/apps/receiver/video_receiver.cc:247-257 | the writer's stores, one after the other, add one packet to the summary |
| Seqlock.StepKeepsInv | gstreamer/apps/receiver/video_receiver.cc:235-286 | every load and store of either thread keeps the lock's invariant |
| Seqlock.UndisturbedLookup | gstreamer/apps/receiver/video_receiver.cc:273-286 | a lookup that no write overlaps succeeds exactly when the slot is open for the frame it asks for |
| Seqlock.FailsIff | gstreamer/apps/receiver/video_receiver.cc:273-286 | in every interleaving, a lookup fails if and only if it found the slot open for another frame, or four of its attempts were disturbed by writes |
| Seqlock.SlotsApart | gstreamer/apps/receiver/video_receiver.cc:259-272 | frames from 1 ms to 1023 ms apart never share a slot |

## Left out

- Delivery.DeliversWholeNals: asks that no two sent packets share the 16-bit sequence number and the timestamp; a packet repeated under both cannot be told apart.
- Delivery.CompleteIsWhole: an access unit whose head was lost before the first packet ever seen, at a reset, or together with the tail before it has no counted loss; for these it states the exact condition instead.
- FragmentAccounting.EveryEventIsCounted: asks that packets of one timestamp are at most 62536 packets apart; FragmentsCountedIff shows that no weaker bound will do.
- HandshakeSafety.DestinationAgreesIff: hosts are numeric addresses; a sender that is given another host ends itself, which is not modelled.
- TraceRing.OverflowIff: counters are unbounded, and the difference is taken modulo 2^64; the lemma asks that the consumed count does not come within the capacity of 2^64.
- EventAccounting.EventsAreExact: says nothing of the bytes and of the lost fragments of arbitrary packets; for conforming streams BufferUse.BytesAreExact and FragmentAccounting.EveryEventIsCounted do.
- CaptureGrid.Grid.GridLoop: takes the slot length in microseconds as a positive number; the source divides one million by the frame rate, so rates above one million are not modelled.
- Weak memory order: steps of the ring and of the seqlock are sequentially consistent, and the counters of both do not wrap.
- `Close` of the ring: the model lets the consumer flush any number of times before the final flush, where the source stops after at most 100 tries; the theorems hold for both.
- Files of the ring: opening and closing failures, the `.ERROR` file, headers and CSV formatting.
- The ring variant in `patches/srsran_gnb/p5g_gnb_tracer.h` and the copies of the ring in the other trees: the same algorithm, with less accounting at shutdown.
- The ring and the seqlock as objects: being machines over single steps, they are modelled on values, and aliasing is not captured.
- The order of the `receiver-ready` messages of one registration, and the suspension between them: a registration sends them as a set, at once.
- Stream profile messages beyond the choice of rung, `ping`, malformed JSON, and the fields of stream-start that nobody checks.
- Liveness of the handshake: the sender's watchdog ends a process that gets no acknowledgement.
- The RTP muxer, sockets, kernel timestamps, memory mapping and the decoder: the muxer is replaced by the set of all conforming packetisations.
- The receive loop around the depacketizer (filter on SSRC and payload type, counters of the statistics file).
- Wall-clock columns, the RTP timestamp base learned from the muxer, and the conversion of the capture epoch between clocks.
- The slot of an arrival across a 32-bit timestamp wrap, where the mapping of milliseconds to slots is not continuous.
- Widths of the byte counters (`int`, `int32_t`): sizes are unbounded here.
- The gstreamer and webrtc copies of these algorithms, analysis scripts, and command-line parsing.
