# A verified model of the KCP engine and three smaller cores

The repository contains a complete reliable transport over UDP, the KCP engine `ikcp.c`, and, beside many
exercises, a thread pool, a DNS client and a TCP chat program with a send buffer. This project models them in
Dafny and proves what they promise.

**The KCP engine.** `Engine` defines what every API call does to a control block: fragmentation, the sliding
send window with selective and cumulative acknowledgements, the receive buffer, both kinds of retransmission,
congestion control, window probing and the flush scheduler, all on 32-bit words that wrap. `Wire` is the 24-byte
codec and the packing of segments into datagrams. `Endpoint` is the program's own form, an object whose methods
update its fields, ACK array and datagram buffer in loops; each method is proved to compute its function of
`Engine`. Its queues are those of `Queues`: four list heads and counters in the heap, and the segments that were made
and not deleted, which between any two calls are exactly the entries of the four lists, each in one of them, so that
none is lost or deleted twice. `Iqueue` has the intrusive circular lists, the allocator, and the loops that walk,
relink and write into the lists.

About these functions: `SenderWindow`, `Receiver` and `Invariant` prove the invariants of one endpoint for any
bytes whatever; `Calls` extends them to any sequence of calls. `Messages` is about fragmentation, `Incoming` about
what `ikcp_input` does on any bytes, `Emission` about what a flush puts on the wire, `Retransmission`, `Congestion`,
`RoundTrip`, `Schedule` and `Probing` about timers and windows; what they say of an input, a flush, an update or a
check is told by the fields before and after it. `Delivery` and `Network` number the fragments of two endpoints without bound and show that the
32-bit numbers agree with them; `Safety` and `Sessions` draw the end-to-end conclusions. `Progress` shows that every
run can be continued until all is delivered. `Replay`, `Deadlock` and `Overtaking` are runs that go wrong outside the
hypotheses of the theorems.

**The smaller cores.** `ThreadPool` is a state machine over the steps of workers, pushing and destroying callers,
with the mutex and the condition variable; `TaskList` is its linked list in the heap. `Dns` has the name encoder,
the decoder with compression pointers and the response parser. `OutBuf` has the send buffer and the arming of
EPOLLOUT. `Serial` and `Seqs` hold 32-bit arithmetic and facts about sequences.

**Parameters.** The clock is an argument of `Update` and `Check`. The output callback is the list of datagrams a
flush returns. What the network delivers, what the kernel answers to `send`, whether an allocation or `epoll_ctl`
succeeds, and which thread steps next are arguments or free choices of a step.

**The network hypothesis.** A step of `Network.Run` may deliver any datagram the peer ever emitted, any number of
times and in any order, as long as neither side has since numbered more than 2^31 fragments beyond what it speaks of.
`Sessions` removes the hypothesis for sessions of up to 2^31 fragments in each direction. It also says exactly which
older datagrams do harm: a fragment does if it falls into the receive window some full turns of the 32-bit numbers
away (`Sessions.MisplacedIff`), and a `una` from the last turn does if it is more than 2^31 behind
(`Sessions.StaleUnaDropsIff`), which is why the bound is 2^31; `Replay.OldDatagramBreaksOrder` is a run in which the
receiver reads a message twice. The sender may stop keeping a segment the receiver holds in `rcv_buf` without having
moved past it, so `snd_una` can run ahead of the peer's `rcv_nxt`; the theorems allow for it.

**Where the code differs from what one would expect.** A refused stream-mode send may still have filled up the last
queued segment (`Messages.StreamRefusalKeepsQueueIff`). A free window of 65536 or more is announced by its low 16 bits
only (`Emission.WindowArrivesIff`), and a session can stop for ever over it (`Deadlock.StuckForever`). A fast-resend
limit can make the congestion window and `incr` disagree (`Congestion.FastInStepIff`). Large round-trip samples
overflow (`RoundTrip.MeanExactIff`). The DNS question length is wrong for names with empty labels
(`Dns.QuestionLengthExactIff`), a pointer to the root name behind a label leaves a dot too many
(`Dns.AppendedRightIff`), and names whose pointers form a cycle are read for ever (`Dns.ReturnsIff`,
`Dns.CycleNeverReturns`). Each is stated with its exact condition, the deadlock with the bound up to which
`Progress.EverythingArrives` excludes it, and with an input that shows it:
`Messages.RefusedSendLeavesMark`, `Deadlock.StuckReached`, `Overtaking.LargeFastResendBreaks`,
`RoundTrip.LargeSampleWraps`, `Dns.TrailingDotLength`, `Dns.DotTooMany`, `Dns.LoopsNeverReturn`.

`dafny verify dfyconfig.toml` checks the whole project.

## Model

| member | source | states |
|---|---|---|
| Safety.EndToEndSafety | 2.2高性能网络设计专栏-网络原理 (2小节)/2.2.3-udp-kcp-quic(示例版)/ikcp.c:361-442 | in every state of every run of two endpoints over a network that loses, repeats and reorders emitted datagrams, what each side has read is, as messages or in stream mode as bytes, a prefix of what the other side's sends took in |
| Sessions.ShortSessionSafety | 2.2高性能网络设计专栏-网络原理 (2小节)/2.2.3-udp-kcp-quic(示例版)/ikcp.c:828-997 | the same with nothing assumed about the age of datagrams, for sessions of up to 2^31 fragments in each direction |
| Sessions.ShortIsTimely | 2.2高性能网络设计专栏-网络原理 (2小节)/2.2.3-udp-kcp-quic(示例版)/ikcp.c:136-139 | in such a session no redelivered datagram is ever older than 2^31 numbers, which is all the general theorem asks of the network |
| Sessions.MisplacedIff | 2.2高性能网络设计专栏-网络原理 (2小节)/2.2.3-udp-kcp-quic(示例版)/ikcp.c:754-804 | which old fragments do harm: a receiver at number r takes fragment n for another one exactly if n lies in [r, r + `rcv_wnd`) some full turns of the 32-bit numbers away |
| Sessions.StaleUnaDropsIff | 2.2高性能网络设计专栏-网络原理 (2小节)/2.2.3-udp-kcp-quic(示例版)/ikcp.c:644-659 | which old acknowledgements do harm: within one turn, a `una` that acknowledges nothing new drops segments exactly if it is more than 2^31 behind `snd_una`; beyond one turn, exactly if it lies less than 2^31 ahead some full turns away |
| Replay.OldDatagramBreaksOrder | 2.2高性能网络设计专栏-网络原理 (2小节)/2.2.3-udp-kcp-quic(示例版)/ikcp.c:754-804 | so the network hypothesis is needed: a run of calls in which 2^32 messages are sent and read, the first datagram is delivered once more, and one message more is read than was sent |
| Safety.AcknowledgedMeansReceived | 2.2高性能网络设计专栏-网络原理 (2小节)/2.2.3-udp-kcp-quic(示例版)/ikcp.c:872-883 | acknowledgement soundness: in every state of every run, in either direction, every numbered fragment is, under its own number, still in the sender's `snd_buf` or in the receiver's `rcv_buf`, or the receiver has moved past it |
| Safety.FullQueueIsReadable | 2.2高性能网络设计专栏-网络原理 (2小节)/2.2.3-udp-kcp-quic(示例版)/ikcp.c:361-441 | no reassembly deadlock, in both modes: a full `rcv_queue` holds the next message (in stream mode the next piece) whole; `ikcp_recv` with a buffer of at least its length returns exactly it and tells the window whenever the queue is then below full, with a smaller buffer it returns -3 and changes nothing |
| Safety.RecvNextMessage | 2.2高性能网络设计专栏-网络原理 (2小节)/2.2.3-udp-kcp-quic(示例版)/ikcp.c:388-415 | a successful read returns exactly the next accepted message and takes exactly its fragments |
| Safety.RecvReturns | 2.2高性能网络设计专栏-网络原理 (2小节)/2.2.3-udp-kcp-quic(示例版)/ikcp.c:361-441 | what `ikcp_recv` returns in every state of every run: -1 if nothing is queued, -2 if fragments of the next message are missing, -3 if it does not fit the buffer, else its length and the message; it asks for a window announcement exactly if the queue was full and is no longer |
| Safety.RunKeepsFullInv | 2.2高性能网络设计专栏-网络原理 (2小节)/2.2.3-udp-kcp-quic(示例版)/ikcp.c:490-566 | in every state of every run the queues of both endpoints hold consecutive pieces of the accepted messages |
| Progress.EverythingArrives | 2.2高性能网络设计专栏-网络原理 (2小节)/2.2.3-udp-kcp-quic(示例版)/ikcp.c:828-1276 | no deadlock of windows, probes and acknowledgements: with receive windows of at most 65535, every run can be continued, without sending anything more, until both sides have read everything that was taken in |
| Progress.BringAll | 2.2高性能网络设计专栏-网络原理 (2小节)/2.2.3-udp-kcp-quic(示例版)/ikcp.c:1087-1246 | in particular some continuation brings all fragments of one direction, whatever the other direction and the clock have come to |
| Deadlock.StuckForever | 2.2高性能网络设计专栏-网络原理 (2小节)/2.2.3-udp-kcp-quic(示例版)/ikcp.c:1003-1022 | with a receive window of 65536 this fails: once the announced window is 0 and nothing is on its way, no call and no timely datagram ever changes what was delivered |
| Deadlock.StuckReached | 2.2高性能网络设计专栏-网络原理 (2小节)/2.2.3-udp-kcp-quic(示例版)/ikcp.c:1003-1022 | a run from creation to such a state, with a message taken in that is not delivered |
| Network.RunKeepsInv | 2.2高性能网络设计专栏-网络原理 (2小节)/2.2.3-udp-kcp-quic(示例版)/ikcp.c:828-997 | in every state of every run: endpoint invariants, contents of every buffer and every datagram in the network agree with one numbering of the fragments |
| Network.InputLinked | 2.2高性能网络设计专栏-网络原理 (2小节)/2.2.3-udp-kcp-quic(示例版)/ikcp.c:828-997 | delivering any datagram the peer ever emitted, again and in any order, keeps that agreement |
| Network.FlushSends | 2.2高性能网络设计专栏-网络原理 (2小节)/2.2.3-udp-kcp-quic(示例版)/ikcp.c:1148-1170 | a flush gives the queued fragments the next consecutive numbers and emits only segments that carry the fragment of their number |
| Network.FlushAcks | 2.2高性能网络设计专栏-网络原理 (2小节)/2.2.3-udp-kcp-quic(示例版)/ikcp.c:1061-1082 | a flush acknowledges only numbers that were received, with `una` equal to `rcv_nxt` |
| Network.RecvLinked | 2.2高性能网络设计专栏-网络原理 (2小节)/2.2.3-udp-kcp-quic(示例版)/ikcp.c:361-442 | reading keeps that agreement |
| Serial.TimeDiffExactIff | 2.2高性能网络设计专栏-网络原理 (2小节)/2.2.3-udp-kcp-quic(示例版)/ikcp.c:136-139 | `_itimediff` on the low 32 bits of two numbers is their true difference exactly when that fits a signed 32-bit integer (section 3.2 of RFC 1982) |
| SenderWindow.WindowCompares | 2.2高性能网络设计专栏-网络原理 (2小节)/2.2.3-udp-kcp-quic(示例版)/ikcp.c:607-659 | inside a window of at most 65535 every comparison on the sending side is exact |
| SenderWindow.TakeUnaMeans | 2.2高性能网络设计专栏-网络原理 (2小节)/2.2.3-udp-kcp-quic(示例版)/ikcp.c:644-659 | on any 32-bit `una`: exactly the segments whose true number lies below it are dropped, the window invariant holds, and `snd_una` moves up, never past `snd_nxt` |
| SenderWindow.TakeAckMeans | 2.2高性能网络设计专栏-网络原理 (2小节)/2.2.3-udp-kcp-quic(示例版)/ikcp.c:619-642 | on any 32-bit number: exactly the segment with that number is dropped, or none if there is none; the window invariant holds and `snd_una` does not move back |
| SenderWindow.BumpFastAt | 2.2高性能网络设计专栏-网络原理 (2小节)/2.2.3-udp-kcp-quic(示例版)/ikcp.c:664-697 | exactly the segments below the highest acknowledged number are counted as skipped |
| SenderWindow.AdmitMeans | 2.2高性能网络设计专栏-网络原理 (2小节)/2.2.3-udp-kcp-quic(示例版)/ikcp.c:1148-1170 | the admission loop moves as many segments as fit under the window, in order, with consecutive numbers |
| SenderWindow.AdmitKeeps | 2.2高性能网络设计专栏-网络原理 (2小节)/2.2.3-udp-kcp-quic(示例版)/ikcp.c:1137-1170 | admission keeps `snd_buf` strictly ascending in [`snd_una`, `snd_nxt`) with `snd_nxt - snd_una` at most 65535 |
| Invariant.InputInv | 2.2高性能网络设计专栏-网络原理 (2小节)/2.2.3-udp-kcp-quic(示例版)/ikcp.c:828-997 | on any bytes: the endpoint invariant survives `ikcp_input`, `snd_nxt` stays and `snd_una` does not move back |
| Incoming.InputClears | 2.2高性能网络设计专栏-网络原理 (2小节)/2.2.3-udp-kcp-quic(示例版)/ikcp.c:872-883 | on any bytes: of the numbers that wait for an acknowledgement exactly those stay that no segment of the datagram acknowledges, by `una` or by ACK; no `una` may lie 2^31 behind some of them and less behind others |
| Incoming.InputSkips | 2.2高性能网络设计专栏-网络原理 (2小节)/2.2.3-udp-kcp-quic(示例版)/ikcp.c:884-964 | of these a segment is counted as overtaken, once, exactly if the datagram was good and has an ACK for some number above it; the ACKs may be for any numbers below `snd_nxt` and at most 2^30 behind `snd_una` |
| Incoming.InputSplits | 2.2高性能网络设计专栏-网络原理 (2小节)/2.2.3-udp-kcp-quic(示例版)/ikcp.c:843-960 | bytes that cannot be decoded do nothing, and a datagram does to the receiving half, the estimator, the probe flags and `rmt_wnd` what its segments do one after another, each in a datagram of its own |
| Incoming.InputPush | 2.2高性能网络设计专栏-网络原理 (2小节)/2.2.3-udp-kcp-quic(示例版)/ikcp.c:908-938 | what a datagram of one data segment does, in a model that is a set of received numbers: its number joins the set exactly if it lies in the window, it is acknowledged with its time exactly if it lies below the window's end by at most 2^31, otherwise nothing changes |
| Incoming.InputAnnounces | 2.2高性能网络设计专栏-网络原理 (2小节)/2.2.3-udp-kcp-quic(示例版)/ikcp.c:872 | each segment sets `rmt_wnd`; only data segments touch the receiving half |
| Incoming.InputReturns | 2.2高性能网络设计专栏-网络原理 (2小节)/2.2.3-udp-kcp-quic(示例版)/ikcp.c:836-870 | the return code of `ikcp_input` on any bytes, told by the bytes the decoder did not take |
| Invariant.FlushInv | 2.2高性能网络设计专栏-网络原理 (2小节)/2.2.3-udp-kcp-quic(示例版)/ikcp.c:1045-1276 | the endpoint invariant survives `ikcp_flush` |
| Invariant.SendInv | 2.2高性能网络设计专栏-网络原理 (2小节)/2.2.3-udp-kcp-quic(示例版)/ikcp.c:490-566 | the endpoint invariant survives `ikcp_send`, accepted or refused |
| Invariant.RecvInv | 2.2高性能网络设计专栏-网络原理 (2小节)/2.2.3-udp-kcp-quic(示例版)/ikcp.c:361-442 | the endpoint invariant survives `ikcp_recv` |
| Invariant.PeekIsPure | 2.2高性能网络设计专栏-网络原理 (2小节)/2.2.3-udp-kcp-quic(示例版)/ikcp.c:364-413 | a peek changes nothing, not even what is drained |
| Calls.EveryEndpoint | 2.2高性能网络设计专栏-网络原理 (2小节)/2.2.3-udp-kcp-quic(示例版)/ikcp.c:231-294 | the endpoint invariant holds after any sequence of API calls, on any bytes and any clock, from any configuration the setup functions can make |
| Receiver.PushRefines | 2.2高性能网络设计专栏-网络原理 (2小节)/2.2.3-udp-kcp-quic(示例版)/ikcp.c:913-936 | in a model that is a set of received numbers: a number joins the set exactly if it lies in [`rcv_nxt`, `rcv_nxt + rcv_wnd`), is acknowledged exactly if it lies below the window's end by at most 2^31, and nothing else changes; the drain stays maximal |
| Receiver.ReadRefines | 2.2高性能网络设计专栏-网络原理 (2小节)/2.2.3-udp-kcp-quic(示例版)/ikcp.c:419-432 | taking segments from `rcv_queue` and draining again keeps the set of received numbers and leaves the drain maximal |
| Receiver.FrontierDetermined | 2.2高性能网络设计专栏-网络原理 (2小节)/2.2.3-udp-kcp-quic(示例版)/ikcp.c:419-432 | `rcv_nxt` is the first missing number, unless the reader is a whole window behind; `rcv_queue` never exceeds `rcv_wnd` |
| Receiver.InsertMeans | 2.2高性能网络设计专栏-网络原理 (2小节)/2.2.3-udp-kcp-quic(示例版)/ikcp.c:767-790 | the backward scan inserts a new number in order and leaves a repeated one out |
| Receiver.DrainRun | 2.2高性能网络设计专栏-网络原理 (2小节)/2.2.3-udp-kcp-quic(示例版)/ikcp.c:792-804 | the drain moves a run of consecutive numbers that starts at `rcv_nxt` |
| Wire.DecodeHeadEncode | 2.2高性能网络设计专栏-网络原理 (2小节)/2.2.3-udp-kcp-quic(示例版)/ikcp.c:1003-1014 | header round trip: only what does not fit the fields is lost |
| Wire.HeaderLayout | 2.2高性能网络设计专栏-网络原理 (2小节)/2.2.3-udp-kcp-quic(示例版)/ikcp.c:1003-1014 | the layout: at which bytes each field lies, as a number with its least significant byte first |
| Wire.ParseStops | 2.2高性能网络设计专栏-网络原理 (2小节)/2.2.3-udp-kcp-quic(示例版)/ikcp.c:849-870 | why the decoder stops, told by the bytes it did not take: 0 for less than a header, -1 for another session, -2 for more payload than there is, -3 for an unknown command |
| Wire.ParseEncodeAll | 2.2高性能网络设计专栏-网络原理 (2小节)/2.2.3-udp-kcp-quic(示例版)/ikcp.c:843-960 | the decoder reads back exactly the encoded segments, in order |
| Wire.EncodeAllParse | 2.2高性能网络设计专栏-网络原理 (2小节)/2.2.3-udp-kcp-quic(示例版)/ikcp.c:843-960 | conversely, encoding what was decoded from any bytes gives literally the consumed prefix; the return code is 0 exactly if less than one header is left over |
| Wire.PackRoundTrip | 2.2高性能网络设计专栏-网络原理 (2小节)/2.2.3-udp-kcp-quic(示例版)/ikcp.c:1070-1132 | packing under an MTU: no datagram is empty or too long, no segment is split, lost or reordered, each datagram decodes to its segments |
| Emission.FlushDecodes | 2.2高性能网络设计专栏-网络原理 (2小节)/2.2.3-udp-kcp-quic(示例版)/ikcp.c:1227-1252 | the datagrams of a flush are non-empty, at most `mtu` long and each decodes without error |
| Emission.FlushPacks | 2.2高性能网络设计专栏-网络原理 (2小节)/2.2.3-udp-kcp-quic(示例版)/ikcp.c:1227-1234 | none of them ends where the next segment would still have had room |
| Emission.FlushDecoded | 2.2高性能网络设计专栏-网络原理 (2小节)/2.2.3-udp-kcp-quic(示例版)/ikcp.c:843-870 | the decoder run over all datagrams of a flush yields exactly what it meant to send |
| Emission.FlushOnWire | 2.2高性能网络设计专栏-网络原理 (2小节)/2.2.3-udp-kcp-quic(示例版)/ikcp.c:1061-1134 | what the peer reads: ACKs in push order, then WASK if the probe timer ran out, then WINS if asked for, then data; each with `una` equal to `rcv_nxt` and with `rcv_wnd` less what is queued, as far as 16 bits hold it |
| Emission.FlushClears | 2.2高性能网络设计专栏-网络原理 (2小节)/2.2.3-udp-kcp-quic(示例版)/ikcp.c:1061-1134 | behind a flush no acknowledgement and no window command is pending; nothing else of the receiving half has changed |
| Emission.WindowArrivesIff | 2.2高性能网络设计专栏-网络原理 (2小节)/2.2.3-udp-kcp-quic(示例版)/ikcp.c:1003-1022 | each segment announces the free window as it is if and only if that is below 65536; a window of 65536 with an empty queue is announced as 0 |
| Messages.FragmentationRoundTrip | 2.2高性能网络设计专栏-网络原理 (2小节)/2.2.3-udp-kcp-quic(示例版)/ikcp.c:490-566 | any messages sent and their queue read: exactly the accepted messages come back, in order |
| Messages.StreamRoundTrip | 2.2高性能网络设计专栏-网络原理 (2小节)/2.2.3-udp-kcp-quic(示例版)/ikcp.c:500-563 | stream mode: any messages sent and their queue read: the bytes read are exactly the bytes taken in, in order |
| Messages.EnqueueMessage | 2.2高性能网络设计专栏-网络原理 (2小节)/2.2.3-udp-kcp-quic(示例版)/ikcp.c:533-563 | message mode: a send is refused exactly if the message is longer than 127 `mss`, and then the queue is as it was; otherwise its pieces are appended, each but the last exactly `mss` long, the last not empty, numbered downwards to 0 |
| Messages.EnqueueStream | 2.2高性能网络设计专栏-网络原理 (2小节)/2.2.3-udp-kcp-quic(示例版)/ikcp.c:500-563 | stream mode: a send is refused exactly if what does not fit the last segment is longer than 127 `mss`; exactly the accepted bytes are appended, what fits even of a refused send; every queued segment but the last is exactly `mss` long and none is added empty |
| Messages.StreamRefusalKeepsQueueIff | 2.2高性能网络设计专栏-网络原理 (2小节)/2.2.3-udp-kcp-quic(示例版)/ikcp.c:500-537 | a refused stream-mode send leaves the bytes as they were exactly if there was no last segment with room |
| Messages.RefusedSendLeavesMark | 2.2高性能网络设计专栏-网络原理 (2小节)/2.2.3-udp-kcp-quic(示例版)/ikcp.c:500-537 | an endpoint with one byte queued refuses 3328 more and keeps 25 of them |
| Messages.ReadBoundary | 2.2高性能网络设计专栏-网络原理 (2小节)/2.2.3-udp-kcp-quic(示例版)/ikcp.c:447-469 | a queue that starts at a message boundary: `ikcp_peeksize` finds a message exactly if all its segments are there, and the merge loop takes exactly these |
| Retransmission.FlushSegments | 2.2高性能网络设计专栏-网络原理 (2小节)/2.2.3-udp-kcp-quic(示例版)/ikcp.c:1186-1225 | what a flush makes of every segment, field by field: one never sent is sent with `rto` = `rx_rto` and an eighth of grace outside nodelay mode; one whose timer ran out gets `xmit + 1`, the longer `rto` of its mode and a timer set by that; one overtaken often enough gets `xmit + 1`, no skips and a timer set by its old `rto`; the others stay; segments newly numbered follow, sent once |
| Retransmission.FlushTransmits | 2.2高性能网络设计专栏-网络原理 (2小节)/2.2.3-udp-kcp-quic(示例版)/ikcp.c:1186-1246 | what the peer reads behind the control segments: each segment never sent, run out or overtaken, once, in order and with those fields; nothing else |
| Retransmission.FlushCounts | 2.2高性能网络设计专栏-网络原理 (2小节)/2.2.3-udp-kcp-quic(示例版)/ikcp.c:1195-1246 | `xmit` of the control block grows by the number of timers that ran out, and the link is dead exactly if a segment sent now has been sent `dead_link` times |
| Retransmission.FlushFillsWindow | 2.2高性能网络设计专栏-网络原理 (2小节)/2.2.3-udp-kcp-quic(示例版)/ikcp.c:1137-1170 | with w the least of send window, peer's window and, unless switched off, congestion window: a flush numbers segments until w are outstanding or none is queued, and none if w or more already are |
| Retransmission.MaxAckIsHighest | 2.2高性能网络设计专栏-网络原理 (2小节)/2.2.3-udp-kcp-quic(示例版)/ikcp.c:884-899 | the number used for fast retransmission is the highest a datagram acknowledges |
| Retransmission.FlushBacksOff | 2.2高性能网络设计专栏-网络原理 (2小节)/2.2.3-udp-kcp-quic(示例版)/ikcp.c:1195-1207 | a flush that finds a timer run out makes the timeout at least twice as long, or half as long again, or longer by half of `rx_rto`, by mode, without wrapping for timeouts up to 2^30, and sets the timer by it |
| Retransmission.FlushArmsIff | 2.2高性能网络设计专栏-网络原理 (2小节)/2.2.3-udp-kcp-quic(示例版)/ikcp.c:1186-1219 | after a flush the resend timer of a segment is running, unless the flush resent it with a timeout that was 0 or above 2^31 |
| Congestion.CallsKeepCong | 2.2高性能网络设计专栏-网络原理 (2小节)/2.2.3-udp-kcp-quic(示例版)/ikcp.c:970-994 | over any calls on any bytes (mtu <= 65535, fastresend <= 32768): `ssthresh >= 2`, `cwnd <= 65535` and `incr` less than one segment away from `cwnd * mss` |
| Congestion.GrowIsIdeal | 2.2高性能网络设计专栏-网络原理 (2小节)/2.2.3-udp-kcp-quic(示例版)/ikcp.c:970-994 | growth equals growth in unbounded arithmetic without the `incr < mss` repair: nothing wraps and the repair never fires |
| Congestion.InputGrowth | 2.2高性能网络设计专栏-网络原理 (2小节)/2.2.3-udp-kcp-quic(示例版)/ikcp.c:970-994 | one `ikcp_input` leaves `ssthresh`, raises `cwnd` by at most 2, and never above `rmt_wnd` |
| Congestion.InputGrows | 2.2高性能网络设计专栏-网络原理 (2小节)/2.2.3-udp-kcp-quic(示例版)/ikcp.c:970-994 | `ikcp_input` grows the window, as in unbounded arithmetic, exactly if the datagram was good and moved `snd_una`; no other datagram touches the congestion state |
| Congestion.FlushKeepsCong | 2.2高性能网络设计专栏-网络原理 (2小节)/2.2.3-udp-kcp-quic(示例版)/ikcp.c:1255-1275 | every flush leaves `cwnd >= 1` |
| Congestion.FlushReacts | 2.2高性能网络设计专栏-网络原理 (2小节)/2.2.3-udp-kcp-quic(示例版)/ikcp.c:1255-1275 | what a flush makes of the congestion state, told by the segments before it: a timer that ran out gives window 1 and half the send window as threshold; otherwise an overtaken segment gives half of what is outstanding as threshold and the window above it by the limit; otherwise it stays, but a window of 0 becomes 1 |
| Congestion.FlushReactsExactly | 2.2高性能网络设计专栏-网络原理 (2小节)/2.2.3-udp-kcp-quic(示例版)/ikcp.c:1255-1262 | for mtu <= 65535 and fastresend <= 32768 the window after a fast retransmission does not wrap, nor its product with `mss`; with no fast-resend limit set it is one below the threshold |
| Congestion.AfterFlushKeeps | 2.2高性能网络设计专栏-网络原理 (2小节)/2.2.3-udp-kcp-quic(示例版)/ikcp.c:1255-1275 | whatever a flush finds, `cwnd` and `incr` stay in step and within bounds, without wrapping |
| Congestion.FastInStepIff | 2.2高性能网络设计专栏-网络原理 (2小节)/2.2.3-udp-kcp-quic(示例版)/ikcp.c:1255-1262 | for any limit and any send window: window and `incr` are in step after a fast retransmission exactly if their product fits 32 bits |
| Overtaking.LargeFastResendBreaks | 2.2高性能网络设计专栏-网络原理 (2小节)/2.2.3-udp-kcp-quic(示例版)/ikcp.c:1255-1262 | a run from creation with MTU 65535 and a limit of 65600, in which one segment is overtaken that often, to a state whose flush leaves window and `incr` out of step |
| RoundTrip.EstimatorBounds | 2.2高性能网络设计专栏-网络原理 (2小节)/2.2.3-udp-kcp-quic(示例版)/ikcp.c:587-604 | over any samples in [lo, hi] with 8 hi < 2^31: the mean is within them or at the clamp 1, the variation is at most hi, the timeout is in [`rx_minrto`, 60000] |
| RoundTrip.UpdateIsIdeal | 2.2高性能网络设计专栏-网络原理 (2小节)/2.2.3-udp-kcp-quic(示例版)/ikcp.c:587-604 | each update is the one of unbounded arithmetic, in the order of section 2 of RFC 6298 |
| RoundTrip.MeanExactIff | 2.2高性能网络设计专栏-网络原理 (2小节)/2.2.3-udp-kcp-quic(示例版)/ikcp.c:597 | the mean is exact if and only if the weighted sum fits 31 bits |
| RoundTrip.LargeSampleWraps | 2.2高性能网络设计专栏-网络原理 (2小节)/2.2.3-udp-kcp-quic(示例版)/ikcp.c:597 | on a new connection two samples of 2^31-1 each give the mean 1 |
| RoundTrip.InputSamples | 2.2高性能网络设计专栏-网络原理 (2小节)/2.2.3-udp-kcp-quic(示例版)/ikcp.c:876-880 | on any bytes `ikcp_input` updates the estimator by exactly the ages of the times its ACKs echo, in order, those that lie ahead left out |
| RoundTrip.RunSamples | 2.2高性能网络设计专栏-网络原理 (2小节)/2.2.3-udp-kcp-quic(示例版)/ikcp.c:876-880 | so over any calls: the estimator is where the samples of all datagrams lead it, and nothing else moves it |
| RoundTrip.EndpointEstimates | 2.2高性能网络设计专栏-网络原理 (2小节)/2.2.3-udp-kcp-quic(示例版)/ikcp.c:587-604 | after any calls on any bytes, samples below 2^28: mean and variation of the endpoint are those of unbounded arithmetic on its samples, and `rx_rto` is 200 before the first one and then mean plus variation, within its limits |
| RoundTrip.EndpointSettles | 2.2高性能网络设计专栏-网络原理 (2小节)/2.2.3-udp-kcp-quic(示例版)/ikcp.c:590-603 | an endpoint whose ACKs all take the same time measures exactly that time, and from the `delay`th sample on resends after the delay and one interval |
| Schedule.CheckReplacesPolling | 2.2高性能网络设计专栏-网络原理 (2小节)/2.2.3-udp-kcp-quic(示例版)/ikcp.c:1321-1357 | however often `ikcp_update` is called before the time `ikcp_check` returns, nothing is sent and every later update does what it would have done |
| Schedule.CheckIsFirst | 2.2高性能网络设计专栏-网络原理 (2小节)/2.2.3-udp-kcp-quic(示例版)/ikcp.c:1321-1357 | `ikcp_check` returns the first moment within one interval at which an update would flush or a resend timer has run out, and the end of the interval if there is none |
| Schedule.CheckTight | 2.2高性能网络设计专栏-网络原理 (2小节)/2.2.3-udp-kcp-quic(示例版)/ikcp.c:1352-1356 | a wait is one interval, or ends at the flush time, or ends at the resend deadline of some segment |
| Schedule.CheckNowIff | 2.2高性能网络设计专栏-网络原理 (2小节)/2.2.3-udp-kcp-quic(示例版)/ikcp.c:1329-1347 | `ikcp_check` returns the current time exactly if an update would flush now or a resend timer has run out; otherwise it returns a later time, at most one interval ahead and not behind the flush time |
| Schedule.NoDeadlineMissed | 2.2高性能网络设计专栏-网络原理 (2小节)/2.2.3-udp-kcp-quic(示例版)/ikcp.c:1344-1351 | no resend deadline falls before the time returned |
| Schedule.TickFlushes | 2.2高性能网络设计专栏-网络原理 (2小节)/2.2.3-udp-kcp-quic(示例版)/ikcp.c:1286-1301 | an update flushes exactly if it is the first, the flush time has come, or it is more than 10 seconds off; otherwise it only notes the time |
| Schedule.UpdateNext | 2.2高性能网络设计专栏-网络原理 (2小节)/2.2.3-udp-kcp-quic(示例版)/ikcp.c:1288-1309 | the flush time an update leaves: one interval after the old one if it came less than one interval late; one interval after now if it was the first, came later, or was far off; unchanged if it did not flush |
| Schedule.FlushesOnGrid | 2.2高性能网络设计专栏-网络原理 (2小节)/2.2.3-udp-kcp-quic(示例版)/ikcp.c:1303-1308 | over any calls whose updates come less than one interval late, the flush times lie on one grid: lateness does not add up |
| Schedule.TickAhead | 2.2高性能网络设计专栏-网络原理 (2小节)/2.2.3-udp-kcp-quic(示例版)/ikcp.c:1284-1309 | an update leaves the next flush ahead, at most one interval if it flushed |
| Probing.NeverSilent | 2.2高性能网络设计专栏-网络原理 (2小节)/2.2.3-udp-kcp-quic(示例版)/ikcp.c:1087-1121 | after a flush, by `ikcp_flush` or inside `ikcp_update`, that starts or fires the probe timer, while the peer stays closed and whatever is called: a flush of either kind asks again exactly once `wait` has passed; `wait` is in [7000, 120000] and not shorter than before |
| Probing.AsksIff | 2.2高性能网络设计专栏-网络原理 (2小节)/2.2.3-udp-kcp-quic(示例版)/ikcp.c:1087-1121 | a flush puts WASK on the wire exactly if the peer has no room and the timer runs and has run out |
| Probing.TickProbeMeans | 2.2高性能网络设计专栏-网络原理 (2小节)/2.2.3-udp-kcp-quic(示例版)/ikcp.c:1087-1110 | the timer starts on the first closed flush with 7 seconds, each time it runs out the wait grows by one half up to 120 seconds, it never shortens, and it stops when the peer opens |
| Probing.ShutAdmitsNothing | 2.2高性能网络设计专栏-网络原理 (2小节)/2.2.3-udp-kcp-quic(示例版)/ikcp.c:1137-1150 | without room at the peer no new segment is numbered |
| Probing.AskIsAnswered | 2.2高性能网络设计专栏-网络原理 (2小节)/2.2.3-udp-kcp-quic(示例版)/ikcp.c:939-942 | an endpoint that received WASK sends WINS with `rcv_wnd` less what is queued, as 16 bits, in its next flush, by `ikcp_flush` or inside `ikcp_update`, whatever is called between |
| Probing.InputProbe | 2.2高性能网络设计专栏-网络原理 (2小节)/2.2.3-udp-kcp-quic(示例版)/ikcp.c:939-942 | `ikcp_input` asks for a window announcement exactly if some segment of the datagram was WASK |
| Endpoint.Kcp.constructor | 2.2高性能网络设计专栏-网络原理 (2小节)/2.2.3-udp-kcp-quic(示例版)/ikcp.c:231-294 | `ikcp_create`: the new object satisfies the invariant, has the value `Create` and the defaults of `ikcp_create`, number by number; its lists are empty |
| Endpoint.Kcp.SetMtu | 2.2高性能网络设计专栏-网络原理 (2小节)/2.2.3-udp-kcp-quic(示例版)/ikcp.c:1361-1374 | accepts exactly an MTU of at least 50, allocates the buffer and sets `mss` |
| Endpoint.Kcp.WndSize | 2.2高性能网络设计专栏-网络原理 (2小节)/2.2.3-udp-kcp-quic(示例版)/ikcp.c:1411-1422 | sets the windows if positive; the receive window never below 128 |
| Endpoint.Kcp.NoDelay | 2.2高性能网络设计专栏-网络原理 (2小节)/2.2.3-udp-kcp-quic(示例版)/ikcp.c:1384-1408 | each argument from 0 on sets its field: least timeout 30 in nodelay mode and 100 outside, interval within [10, 5000]; a negative one leaves it |
| Endpoint.Kcp.Send | 2.2高性能网络设计专栏-网络原理 (2小节)/2.2.3-udp-kcp-quic(示例版)/ikcp.c:490-566 | computes `Engine.Send`; invariant kept, that of the lists included |
| Endpoint.Kcp.Recv | 2.2高性能网络设计专栏-网络原理 (2小节)/2.2.3-udp-kcp-quic(示例版)/ikcp.c:361-442 | computes `Engine.Recv`; invariant kept, that of the lists included |
| Endpoint.Kcp.PeekSize | 2.2高性能网络设计专栏-网络原理 (2小节)/2.2.3-udp-kcp-quic(示例版)/ikcp.c:447-469 | the loop computes `Engine.PeekSize` |
| Endpoint.Kcp.Input | 2.2高性能网络设计专栏-网络原理 (2小节)/2.2.3-udp-kcp-quic(示例版)/ikcp.c:828-997 | on any bytes the loop over segments computes `Engine.Input`, errors in the middle included; invariant kept, that of the lists included |
| Endpoint.Kcp.AckPush | 2.2高性能网络设计专栏-网络原理 (2小节)/2.2.3-udp-kcp-quic(示例版)/ikcp.c:703-739 | the ACK array appends, across regrowth |
| Endpoint.Kcp.Flush | 2.2高性能网络设计专栏-网络原理 (2小节)/2.2.3-udp-kcp-quic(示例版)/ikcp.c:1045-1276 | writing through one datagram buffer and into the segments in place produces exactly the datagrams and the state of `Engine.Flush`; invariant kept, that of the lists included |
| Endpoint.Kcp.Update | 2.2高性能网络设计专栏-网络原理 (2小节)/2.2.3-udp-kcp-quic(示例版)/ikcp.c:1284-1309 | computes `Engine.Update`; invariant kept |
| Endpoint.Kcp.Check | 2.2高性能网络设计专栏-网络原理 (2小节)/2.2.3-udp-kcp-quic(示例版)/ikcp.c:1321-1357 | the loop computes `Engine.Check` |
| Endpoint.Kcp.WaitSnd | 2.2高性能网络设计专栏-网络原理 (2小节)/2.2.3-udp-kcp-quic(示例版)/ikcp.c:1424-1427 | equals the number of numbered and queued segments |
| Endpoint.Kcp.Release | 2.2高性能网络设计专栏-网络原理 (2小节)/2.2.3-udp-kcp-quic(示例版)/ikcp.c:299-341 | when it returns, every segment that was made has been deleted |
| Iqueue.Add | 2.2高性能网络设计专栏-网络原理 (2小节)/2.2.3-udp-kcp-quic(示例版)/ikcp.h:165-167 | inserting behind any member of a circular list in the heap is insertion in its sequence |
| Iqueue.AddTail | 2.2高性能网络设计专栏-网络原理 (2小节)/2.2.3-udp-kcp-quic(示例版)/ikcp.h:169-171 | appending before the head appends to the sequence |
| Iqueue.Del | 2.2高性能网络设计专栏-网络原理 (2小节)/2.2.3-udp-kcp-quic(示例版)/ikcp.h:175-178 | unlinking removes from the sequence and clears the entry's links |
| Iqueue.IsEmpty | 2.2高性能网络设计专栏-网络原理 (2小节)/2.2.3-udp-kcp-quic(示例版)/ikcp.h:183 | a list is empty exactly if its head is its own successor |
| Iqueue.ParseUna | 2.2高性能网络设计专栏-网络原理 (2小节)/2.2.3-udp-kcp-quic(示例版)/ikcp.c:644-659 | the loop over linked nodes computes `DropAcked`; what it unlinks it deletes, nothing else |
| Iqueue.ParseAck | 2.2高性能网络设计专栏-网络原理 (2小节)/2.2.3-udp-kcp-quic(示例版)/ikcp.c:619-642 | the loop over linked nodes computes `RemoveSn`; the node it unlinks is deleted |
| Iqueue.InsertData | 2.2高性能网络设计专栏-网络原理 (2小节)/2.2.3-udp-kcp-quic(示例版)/ikcp.c:767-790 | the backward walk and the insertion compute `Insert`; the new segment is deleted exactly if its number is there already |
| Iqueue.MoveAvailable | 2.2高性能网络设计专栏-网络原理 (2小节)/2.2.3-udp-kcp-quic(示例版)/ikcp.c:792-804 | moving nodes between two lists computes `Drain` |
| Iqueue.ParseFastack | 2.2高性能网络设计专栏-网络原理 (2小节)/2.2.3-udp-kcp-quic(示例版)/ikcp.c:664-697 | the loop that counts skips inside the segments computes `BumpFast`; links stay |
| Iqueue.Merge | 2.2高性能网络设计专栏-网络原理 (2小节)/2.2.3-udp-kcp-quic(示例版)/ikcp.c:388-413 | the merge loop returns the payload of the first message; it unlinks and deletes its nodes, or in a peek none |
| Iqueue.PeekSize | 2.2高性能网络设计专栏-网络原理 (2小节)/2.2.3-udp-kcp-quic(示例版)/ikcp.c:447-469 | the loop computes `PeekSize` |
| Iqueue.AdmitAll | 2.2高性能网络设计专栏-网络原理 (2小节)/2.2.3-udp-kcp-quic(示例版)/ikcp.c:1148-1170 | moving nodes and writing their fields computes `Admit` |
| Iqueue.ReplaceLast | 2.2高性能网络设计专栏-网络原理 (2小节)/2.2.3-udp-kcp-quic(示例版)/ikcp.c:508-526 | a new last segment is linked, the old one unlinked and deleted |
| Iqueue.Fragment | 2.2高性能网络设计专栏-网络原理 (2小节)/2.2.3-udp-kcp-quic(示例版)/ikcp.c:541-563 | the fragmentation loop appends `Cut`, in nodes newly made |
| Iqueue.NearestResend | 2.2高性能网络设计专栏-网络原理 (2小节)/2.2.3-udp-kcp-quic(示例版)/ikcp.c:1340-1349 | the loop over the deadlines computes `NextResend`, or stops at one that has passed |
| Iqueue.Clear | 2.2高性能网络设计专栏-网络原理 (2小节)/2.2.3-udp-kcp-quic(示例版)/ikcp.c:304-308 | the loop unlinks and deletes every entry |
| Queues.Queues.constructor | 2.2高性能网络设计专栏-网络原理 (2小节)/2.2.3-udp-kcp-quic(示例版)/ikcp.c:262-269 | four empty lists without a common member, with their counters, and no segment alive |
| Queues.Queues.ParseUna | 2.2高性能网络设计专栏-网络原理 (2小节)/2.2.3-udp-kcp-quic(示例版)/ikcp.c:644-659 | computes `DropAcked` on `snd_buf` and deletes exactly the dropped segments; those alive are again exactly the entries of the four lists, each in one of them |
| Queues.Queues.ParseAck | 2.2高性能网络设计专栏-网络原理 (2小节)/2.2.3-udp-kcp-quic(示例版)/ikcp.c:619-642 | the same with `RemoveSn` and at most one segment |
| Queues.Queues.ParseFastack | 2.2高性能网络设计专栏-网络原理 (2小节)/2.2.3-udp-kcp-quic(示例版)/ikcp.c:664-697 | computes `BumpFast`; all lists keep their members |
| Queues.Queues.InsertNew | 2.2高性能网络设计专栏-网络原理 (2小节)/2.2.3-udp-kcp-quic(示例版)/ikcp.c:767-790 | computes `Insert` on `rcv_buf`; the segment made by `ikcp_input` is put into that list, or deleted exactly if its number is there already |
| Queues.Queues.MoveAvailable | 2.2高性能网络设计专栏-网络原理 (2小节)/2.2.3-udp-kcp-quic(示例版)/ikcp.c:792-804 | computes `Drain`; nothing is made or deleted, each segment stays in exactly one list |
| Queues.Queues.ParseData | 2.2高性能网络设计专栏-网络原理 (2小节)/2.2.3-udp-kcp-quic(示例版)/ikcp.c:754-804 | computes `TakeData`; the segment is deleted exactly if it is outside the window or its number is there already |
| Queues.Queues.Merge | 2.2高性能网络设计专栏-网络原理 (2小节)/2.2.3-udp-kcp-quic(示例版)/ikcp.c:388-413 | taking the first message deletes exactly its segments; a peek deletes none |
| Queues.Queues.AdmitAll | 2.2高性能网络设计专栏-网络原理 (2小节)/2.2.3-udp-kcp-quic(示例版)/ikcp.c:1148-1170 | computes `Admit`; nothing is made or deleted, each segment stays in exactly one list |
| Queues.Queues.FillLast | 2.2高性能网络设计专栏-网络原理 (2小节)/2.2.3-udp-kcp-quic(示例版)/ikcp.c:500-527 | computes `Fill`; at most one segment is made, and then the last one is deleted |
| Queues.Queues.AppendAll | 2.2高性能网络设计专栏-网络原理 (2小节)/2.2.3-udp-kcp-quic(示例版)/ikcp.c:541-563 | computes `Cut`; the segments made are those appended, none is deleted |
| Queues.Queues.MakeSegment | 2.2高性能网络设计专栏-网络原理 (2小节)/2.2.3-udp-kcp-quic(示例版)/ikcp.c:173-176 | the segment made is alive and in no list |
| Queues.Queues.WriteSnd | 2.2高性能网络设计专栏-网络原理 (2小节)/2.2.3-udp-kcp-quic(示例版)/ikcp.c:1189-1225 | writing into one segment of `snd_buf` changes that segment only; all lists keep their members |
| Queues.Queues.Release | 2.2高性能网络设计专栏-网络原理 (2小节)/2.2.3-udp-kcp-quic(示例版)/ikcp.c:303-323 | no segment is left alive |
| ThreadPool.EveryTaskOnce | Linux入门环境编程/并发下的技术方案（锁）/线程池/threadpool.c:74-107 | in every state of every interleaving a pushed task is in exactly one place (list, one worker, finished) and has started at most once; a worker about to take a task finds one |
| ThreadPool.NoWakeupLost | Linux入门环境编程/并发下的技术方案（锁）/线程池/threadpool.c:80-89 | before destruction, whenever the lock is free and a worker sleeps, tasks do not outnumber woken workers; if all workers sleep the list is empty, spurious wake-ups included |
| ThreadPool.NoneLeftAsleep | Linux入门环境编程/并发下的技术方案（锁）/线程池/threadpool.c:157-175 | after the destroying broadcast no worker sleeps or is about to |
| ThreadPool.WorkersExit | Linux入门环境编程/并发下的技术方案（锁）/线程池/threadpool.c:84-97 | after it every worker exits within seven steps of its own, held up only by another thread's hold on the lock |
| ThreadPool.NextKeepsInv | Linux入门环境编程/并发下的技术方案（锁）/线程池/threadpool.c:148-155 | every step of every thread keeps mutual exclusion and the above |
| TaskList.Insert | Linux入门环境编程/并发下的技术方案（锁）/线程池/threadpool.c:9-17 | linking in front is prepending to the sequence |
| TaskList.Remove | Linux入门环境编程/并发下的技术方案（锁）/线程池/threadpool.c:21-31 | unlinking any item, the first included, removes it from the sequence |
| Dns.HostRoundTrip | Linux入门环境编程/DNS协议与请求/dns.c:35-79 | for every host name of non-empty labels of at most 63 bytes: the name `convert_domain` makes, anywhere in a message, is read back as the host name, and the announced length is its length |
| Dns.ConvertDomain | Linux入门环境编程/DNS协议与请求/dns.c:35-66 | the loop writes the length-prefixed tokens and zeros to the end of its buffer |
| Dns.QuestionLengthExactIff | Linux入门环境编程/DNS协议与请求/dns.c:73 | `strlen(hostname) + 2` is the encoded length exactly for host names without leading, trailing or double dots |
| Dns.TrailingDotLength | Linux入门环境编程/DNS协议与请求/dns.c:73 | for the host name `a.` it is one more than the encoded length |
| Dns.ParseName | Linux入门环境编程/DNS协议与请求/dns.c:106-151 | where every pointer leads before the run of labels it ends, the loop and its recursion terminate and append the text of the name; other bytes of the buffer stay |
| Dns.AppendedIs | Linux入门环境编程/DNS协议与请求/dns.c:118-150 | that text is the labels joined by dots (section 4.1.4 of RFC 1035), with one dot too many if a label is followed by a pointer to the root name |
| Dns.AppendedRightIff | Linux入门环境编程/DNS协议与请求/dns.c:143-148 | so it is right if and only if no label is followed by such a pointer |
| Dns.DotTooMany | Linux入门环境编程/DNS协议与请求/dns.c:143-148 | for example, of a name of one label `a` and a pointer to the root name the text is `a.` |
| Dns.RfcNameIsRead | Linux入门环境编程/DNS协议与请求/dns.c:123-141 | every name of section 4.1.4 of RFC 1035 is read as that section defines it |
| Dns.NameReturns | Linux入门环境编程/DNS协议与请求/dns.c:116-150 | where there is such a name the decoder returns |
| Dns.ReturnsIff | Linux入门环境编程/DNS协议与请求/dns.c:116-150 | on any bytes whatever: the decoder returns if and only if it does so within as many labels and pointers as the message has bytes |
| Dns.CycleNeverReturns | Linux入门环境编程/DNS协议与请求/dns.c:116-150 | wherever it comes back to a position it has been at, it never returns |
| Dns.SelfPointerNeverReturns | Linux入门环境编程/DNS协议与请求/dns.c:123-130 | so a pointer to itself is followed for ever |
| Dns.LoopsNeverReturn | Linux入门环境编程/DNS协议与请求/dns.c:116-150 | as is, for example, a label with a pointer back to it behind |
| Dns.BuildRequest | Linux入门环境编程/DNS协议与请求/dns.c:81-97 | header, name, type and class in this order, zeros behind |
| Dns.ParseResponse | Linux入门环境编程/DNS协议与请求/dns.c:154-246 | the loops compute the list of address records of a message that stays within its bounds |
| Dns.ResponseRoundTrip | Linux入门环境编程/DNS协议与请求/dns.c:154-246 | for every encoded response with uncompressed questions and A and CNAME answers owned by one pointer, whose names fit: exactly the 4-byte A records, in order, with their owners |
| OutBuf.Conservation | 2.2高性能网络设计专栏-网络原理 (2小节)/2.2.1_homework_tcp_p2p(ChatGPT版)/2.2.1_tcp_p2p.c:73-161 | over any appends and flushes with partial sends, interruptions and errors: bytes sent followed by bytes pending are the bytes appended |
| OutBuf.ArmedIffPending | 2.2高性能网络设计专栏-网络原理 (2小节)/2.2.1_homework_tcp_p2p(ChatGPT版)/2.2.1_tcp_p2p.c:462-543 | while `ep_mod` succeeds and the loop runs, EPOLLOUT is armed exactly if bytes are pending |
| OutBuf.FlushConserves | 2.2高性能网络设计专栏-网络原理 (2小节)/2.2.1_homework_tcp_p2p(ChatGPT版)/2.2.1_tcp_p2p.c:137-161 | one flush loses, repeats and reorders nothing; it returns 0 exactly if nothing is left |
| OutBuf.OutBuffer.Append | 2.2高性能网络设计专栏-网络原理 (2小节)/2.2.1_homework_tcp_p2p(ChatGPT版)/2.2.1_tcp_p2p.c:120-135 | appends to the pending bytes, or leaves them if memory is short |
| OutBuf.OutBuffer.Compact | 2.2高性能网络设计专栏-网络原理 (2小节)/2.2.1_homework_tcp_p2p(ChatGPT版)/2.2.1_tcp_p2p.c:99-112 | moves the pending bytes to the front in place |
| OutBuf.OutBuffer.Flush | 2.2高性能网络设计专栏-网络原理 (2小节)/2.2.1_homework_tcp_p2p(ChatGPT版)/2.2.1_tcp_p2p.c:137-161 | the loop sends and keeps what `FlushOf` says, given the kernel's answers |
| OutBuf.Session.OnTyped | 2.2高性能网络设计专栏-网络原理 (2小节)/2.2.1_homework_tcp_p2p(ChatGPT版)/2.2.1_tcp_p2p.c:462-480 | appends the input and arms EPOLLOUT as `Handle` says |
| OutBuf.Session.OnWritable | 2.2高性能网络设计专栏-网络原理 (2小节)/2.2.1_homework_tcp_p2p(ChatGPT版)/2.2.1_tcp_p2p.c:529-543 | flushes and disarms EPOLLOUT as `Handle` says |

## Left out

- Endpoint.Kcp.SetMtu: only before anything is sent, and for MTUs whose buffer size fits 32 bits; shrinking the MTU in mid-session leaves segments that no longer fit it.
- Endpoint.Kcp.WndSize: only before anything is received; shrinking the receive window in mid-session breaks the bound on `rcv_queue`.
- Endpoint.Kcp.NoDelay: only while the retransmission timeout is at least 100, as after creation; `ikcp_interval` alone is not modelled, its effect is part of `NoDelay`.
- RoundTrip.UpdateIsIdeal: overflow of a signed intermediate value is taken to wrap where it can happen; the theorem excludes it by its bound on samples.
- Network.RunKeepsInv: forged datagrams are excluded here; the invariants of one endpoint take any bytes.
- Incoming.InputSkips: ACKs for numbers that were never sent, or more than 2^30 behind `snd_una`, are excluded; `SenderWindow.BumpFastAt` and `Retransmission.MaxAckIsHighest` are about the two loops alone.
- Incoming.InputClears: a `una` that lies 2^31 behind some of the numbers in flight and less behind others is excluded; `Sessions.StaleUnaDropsIff` and `SenderWindow.TakeUnaMeans` say what it does.
- Dns.ParseResponse: messages that would be read beyond their end, or names that do not fit the 128-byte buffers, are excluded, as the program has no check for them; an address is its four bytes, the text `inet_ntop` makes of it and what is logged are not modelled.
- Dns.ResponseRoundTrip: record types other than A and CNAME, whose data the parser does not step over; `Dns.RecordAt` models that behaviour.
- ThreadPool.EveryTaskOnce: the unlocked `pool->tasks = NULL` at the end of the destruction, freeing of memory, and failures of thread creation; workers start with a clear `terminate` flag.
- OutBuf.ArmedIffPending: events on the receiving side and the connection phase.
- In `Queues` a counter is updated once behind a loop, by as much as the loop in the source does step by step.
- Sockets, epoll, real clocks, logging, allocators, `user` pointers, NULL buffers, negative lengths given to `ikcp_send` and the build with `IKCP_FASTACK_CONSERVE`.
- `ikcp_qprint`, `ikcp_getconv`, freeing of the control block and its buffers, and the fields `ts_recent` and `ts_lastack`, which nothing reads.
- The capacity of the ACK array is a natural number; allocation failure at regrowth is not modelled.
- The bits of `probe` are two booleans; the length `ikcp_recv` is given may not be the smallest 32-bit integer.
- The session wrappers, chat programs and the other exercises of the repository: they are I/O plumbing and would add only easy members.
