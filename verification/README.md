# Verified model of libnice's protocol cores

This project models the stateful cores of libnice in Dafny and proves what they promise.

- **Pseudo-TCP** (`Wrap32`, `Fifo`, `Header`, `SendQueue`, `Sender`, `Reassembly`, `Journal`, `Socket`, `Link`).
  The byte ring, the segment lists, reassembly, windows, retransmission and congestion control of a socket during
  data transfer, and two such sockets joined by a network that loses, duplicates, delays and reorders packets.
  The main theorem (`PseudoTcpLink.Run`, `Simulate`): in every run, what is read at one end is a prefix of what was
  accepted at the other, up to a segment that the code takes for a FIN. No window is exceeded and nothing breaks down
  within bounds on the bytes offered, about 2^31 for the recovery point and 2^32 for the FIN; see below.
- **Connection states** (`States`): every change of state in every run is an edge of the asserted table.
- **ICE check lists** (`Priority`, `CheckList`, `ConnCheck`): order, freezing, the triggered-check queue, pruning and
  the way to READY, over every run of the agent's steps.
- **Discovery and SDP** (`Decimal`, `Foundations`, `RefreshPrune`, `CandidateSdp`): foundations over runs of additions and
  removals, exactly-once completion of overlapping prunes, and the candidate line printed and parsed.

Positions in a byte stream are unbounded integers; the sockets compute with their values modulo 2^32, and ghost fields
tie the two together. Whatever the outside world decides is an input: time, the result of writing a packet (any answer,
at any time), and which packet arrives when.

## What the code does not keep

The model follows the code. Where a promise fails, the exact condition is proved.

- A packet is safely told from a later one while no more than 2^31 - 2^26 - 3 bytes have been accepted at either end since
  it was sent (`MAX_AGE`, `ArrivalLive`); a wrap later it is not (`StalePositionAliases`). A link delivers no older packets.
- In recovery (three duplicate acks), an ack of everything sent should be past `recover`. It counts as before it iff
  `recover` lies 2^31 - 1 bytes or more behind, modulo 2^32 (`StaleDistance`). The code then sends the first waiting segment
  whatever the window says; with no byte waiting it takes a segment from a list that is empty, or holds an empty one left
  by a send of no bytes (`OnNewAck`, `Process`, `Arrives` state both as iffs; `StrandedExample` and `AstrayExample` are such
  states). `PseudoTcpLink.Run` stops there, and proves that it cannot happen while fewer than 2^31 - 1 bytes are offered,
  counting those from the recovery point to the start of the stream (`behind`).
- `rcv_fin` is zero until a FIN arrives, and zero is also a sequence number. With FIN-ACK support a plain segment whose
  length, added to a `rcv_nxt` that is not zero, wraps it to zero counts as a FIN: exactly then (`CountsAsFinExact`). The
  socket goes to CLOSE-WAIT (`States.NoFinRun`), `rcv_nxt` ends one number too far (`TakeForFin`), and the next byte of
  the stream is lost (`SkipByte`). `PseudoTcpLink.Run` stops at such a segment, and proves that there is none while the
  initial number, the bytes offered and one packet stay within 2^32.
- A peer that ignores the advertised window makes `rcv_wnd` wrap. Reassembly is proved without any assumption about
  windows; the window properties assume a peer that keeps to its window, and `Link` proves that this code is one.
- With Nagle's rule on, the default, the return that holds a small segment back comes before both kinds of ack: an
  immediate ack is then not sent, and a delayed one neither sent nor scheduled. Exactly then: `SendTurn`, `AttemptSend`,
  `ProcessPayload`, `Reopen`; `HeldBackExample` is such a state.
- An MTU no longer than the packet headers makes the segment size zero or wrap (`AdjustMtu`, `NotifyMtu`);
  `PseudoTcpLink.Run` stops there.
- `set_capacity` with exactly the buffered size reports success and keeps the old capacity (`SetCapacity`).
- `shutdown` asserts a state change after sending. If data waits before the FIN and the network refuses it the connection
  is closed by then, and the assertion fails: exactly then (`SendFin`, `Shutdown`; `RefusedRun`). A FIN itself is empty and
  always counts as written.
- A FIN segment with data is dropped after its acknowledgement was taken, so an ack of our own FIN in it is lost; an RST
  with data is ignored in TIME-WAIT (`States.Connection.Process`).
- The doubled maximum in the pair priority is a 32-bit product, so the formula of the standard, and uniqueness, hold for
  priorities below 2^31 (`PairPriorityStandard`, `PairPriorityEqual`).
- An IPv6 scope of zero matches every scope. Foundations tell origins apart in every run in which no address occurs
  both with and without a scope (`Foundations.Run`, `EqualAlike`); otherwise they may not (`WildcardRun`).
- When a remote candidate is signalled again its pairs take new foundations. A frozen pair that takes a foundation which
  has already succeeded stays frozen; exactly then the freezing invariant is lost (`Rename`, `MissedExample`).
- The selected priority becomes zero, with nominated pairs left in the list, when the selected pair's socket is lost or
  its relay forgotten. Then the assertion before pruning fails: exactly if there is a valid nominated pair
  (`UpdateForReady`, `UpdateSelected`; `FailAfterLoss`, `FailAfterForgetting`, `FailAtNomination`). The assertion that there is
  a selected pair fails exactly if it was cleared and a nominated pair is left (`Reselect`). Neither fails in a run that
  clears no selection (`ConnCheck.Run`).
- A port of zero is announced as nine (`AnnouncedSame`).

## Model

| member | source | states |
|---|---|---|
| Wrap32.ComparisonsOrderPositions | agent/pseudotcp.c:534-537 | LARGER, LARGER_OR_EQUAL, SMALLER and SMALLER_OR_EQUAL order the wrapped numbers of two stream positions as the positions themselves, whenever these are less than 2^31-1 apart |
| Wrap32.LargerOrEqualExact | agent/pseudotcp.c:535-537 | for positions in order and less than a wrap apart, LARGER_OR_EQUAL answers true iff they are less than 2^31-1 apart |
| Wrap32.StalePositionAliases | agent/pseudotcp.c:534-537 | two positions a whole wrap apart carry the same number, so a duplicate that old cannot be told from fresh data |
| Wrap32.TimeDiff | agent/pseudotcp.c:241-270 | the clock difference is the two's-complement reading of later - earlier, for all pairs of clock values |
| Fifo.PseudoTcpFifo.constructor | agent/pseudotcp.c:285-290 | a new buffer of the given capacity is empty |
| Fifo.PseudoTcpFifo.SetCapacity | agent/pseudotcp.c:307-326 | succeeds iff the buffered bytes fit, and keeps them, in order, across any wrap-around; a request for exactly the buffered size succeeds without changing the capacity |
| Fifo.PseudoTcpFifo.ConsumeReadData | agent/pseudotcp.c:329-335 | drops the oldest bytes; the ring rotates under the reader |
| Fifo.PseudoTcpFifo.ConsumeWriteBuffer | agent/pseudotcp.c:338-343 | takes over bytes already placed past the end |
| Fifo.PseudoTcpFifo.ReadOffset | agent/pseudotcp.c:352-368 | returns the bytes at an offset, cut to what is buffered, across the wrap |
| Fifo.PseudoTcpFifo.WriteOffset | agent/pseudotcp.c:371-388 | places bytes at an offset past the end without moving the end; nothing else in the ring changes |
| Fifo.PseudoTcpFifo.Read | agent/pseudotcp.c:391-401 | returns and removes the oldest bytes |
| Fifo.PseudoTcpFifo.Write | agent/pseudotcp.c:404-412 | appends what fits |
| Fifo.OffsetsFromEndSurviveReads | agent/pseudotcp.c:352-401 | bytes stored past the end keep their offset from the end across reads |
| Fifo.Perform | agent/pseudotcp.c:276-412 | every operation gives the result (bytes, count or success) and reaches the state of a bounded queue with cells past its end; a byte never written may be anything |
| Fifo.RunAll | agent/pseudotcp.c:276-412 | from a new buffer on, for every interleaving of the operations, all results and the final state are those of the bounded queue, at first empty |
| Header.ReceiveEncoded | agent/pseudotcp.c:1427-1494 | what packet writes, notify_packet and parse read back unchanged, unless the payload is oversized; then it is refused |
| Header.EncodeReceived | agent/pseudotcp.c:1043-1066 | conversely every packet of legal size is the encoding of what is parsed from it, but for the unused control byte |
| Header.AdvertisedWindow | agent/pseudotcp.c:1432-1432 | the peer is granted at most rcv_wnd, and more than rcv_wnd - 2^scale iff the shifted window fits its 16-bit field |
| Header.WindowFits | agent/pseudotcp.c:2472-2505 | within the buffer size a scale was computed for, the field never overflows |
| Header.ScaleFor | agent/pseudotcp.c:2483-2491 | the resize loop ends with the least scale whose shifted size fits 16 bits, and a size less than 2^scale below the request |
| SendQueue.EnqueueQueued | agent/pseudotcp.c:1383-1398 | queueing bytes keeps the tiling: slist covers [snd_una, end) without gap or overlap, the transmitted segments are a prefix ending at snd_nxt, unsent_slist names exactly the rest |
| SendQueue.SplitWaiting | agent/pseudotcp.c:2245-2257 | splitting the first waiting segment, in both lists, keeps the tiling |
| SendQueue.SplitInFlight | agent/pseudotcp.c:2116-2131 | splitting a segment already in flight keeps the tiling |
| SendQueue.AcknowledgeQueued | agent/pseudotcp.c:1713-1731 | freeing acknowledged bytes keeps the tiling from the new snd_una on, whatever mixture of whole and partial segments they cover |
| SendQueue.HeadInFlight | agent/pseudotcp.c:973-988 | bytes are in flight exactly when the head of slist is a transmitted, non-empty segment at snd_una |
| SendQueue.HeadWaiting | agent/pseudotcp.c:2239-2243 | bytes are waiting exactly when the first unsent segment is non-empty; it starts at snd_nxt, and the search in slist finds it |
| Sender.SplitSegment | agent/pseudotcp.c:2116-2131 | breaks a sendable segment in two and keeps the sender's invariant |
| Sender.CountTransmission | agent/pseudotcp.c:2133-2146 | a first transmission removes the head of unsent_slist (the assertion there holds) and moves snd_nxt by its length; the timer is armed if it was not |
| Sender.RecordTransmission | agent/pseudotcp.c:2116-2149 | after n bytes were written the lists, snd_nxt and the timer agree again |
| Sender.EnqueueSegment | agent/pseudotcp.c:1383-1398 | extends the last waiting segment or appends one, keeping the invariant up to the new end |
| Sender.FreeAcknowledged | agent/pseudotcp.c:1713-1731 | the loop frees exactly the acknowledged bytes and never finds the list empty |
| Sender.AcceptAck | agent/pseudotcp.c:1695-1731 | an acknowledgement of [snd_una, ack) moves snd_una there, frees that much, and stops the timer iff everything is acknowledged |
| Sender.LowerMss | agent/pseudotcp.c:2096-2112 | steps down the table to the first smaller size, or to its end; every level passed was too large |
| Sender.PastRecovery | agent/pseudotcp.c:1733-1741 | what was sent counts as past the recovery point iff the two are less than 2^31 - 1 bytes apart, modulo 2^32 |
| Sender.StrandedExample | agent/pseudotcp.c:1742-1747 | one byte in flight 2^31 - 1 bytes after the last loss, three duplicates that started no recovery: within the invariant, and the ack of that byte is stale |
| Sender.AstrayExample | agent/pseudotcp.c:1742-1747 | the same with another byte waiting for which the peer has no room |
| Sender.HeldBackExample | agent/pseudotcp.c:2228-2236 | a state in which Nagle's rule holds a small segment back |
| Sender.SendsOnTwice | agent/pseudotcp.c:2165-2269 | turns of attempt_send add up: the windows hold for what all of them send |
| Sender.LevelFor | agent/pseudotcp.c:2325-2331 | the first level of the table the path can carry |
| Sender.AdjustMtu | agent/pseudotcp.c:2320-2339 | the segment size is usable iff the advised packet is longer than the headers, and then fills it; the windows are raised to their minimums and never lowered; the level is that of the largest table entry the path can carry |
| Sender.SendPlan | agent/pseudotcp.c:2176-2196 | what one turn may send: within min(snd_wnd, cwnd + limited-transmit allowance), within what is buffered and unsent, at most one segment, and no sliver of a window; nothing only if there is nothing, the window is full or just a sliver is left |
| Sender.Increment | agent/pseudotcp.c:1762-1762 | congestion avoidance opens the window by at least a byte and at most a segment |
| Sender.Grow | agent/pseudotcp.c:1756-1763 | outside recovery cwnd grows, by at most one segment |
| Sender.Deflate | agent/pseudotcp.c:1734-1741 | leaving recovery, cwnd is at most ssthresh |
| Sender.Threshold | agent/pseudotcp.c:997-998 | at least two segments and at least half of what is in flight |
| Sender.MeasureRtt | agent/pseudotcp.c:1670-1683 | the timeout stays within its bounds, and the smoothed time between the old one and the sample |
| Journal.AllGenuineAppend | agent/pseudotcp.c:1414-1469 | the history of sent packets stays genuine: every payload is the stream at the packet's position |
| Journal.AllGenuineGrows | agent/pseudotcp.c:1371-1402 | and stays so while the user queues more |
| Reassembly.TrimExact | agent/pseudotcp.c:1958-1978 | the two cuts of an incoming segment leave exactly the bytes at positions in [rcv_nxt, rcv_nxt + free space) |
| Reassembly.TrimSlice | agent/pseudotcp.c:1958-1978 | what is left of a slice of the stream is a slice of the stream |
| Reassembly.Insert | agent/pseudotcp.c:2026-2038 | a segment ahead of its turn enters rlist in order; the list gains that one entry |
| Reassembly.SavedAfterRead | agent/pseudotcp.c:1208-1208 | saved segments stay at their place relative to the end when bytes are read |
| Reassembly.SavedAfterWrite | agent/pseudotcp.c:1993-1998 | writing another genuine payload never disturbs the bytes of a saved segment |
| Reassembly.ReadStep | agent/pseudotcp.c:1208-1208 | bytes read continue what was delivered before, as a prefix of the peer's stream |
| PseudoTcp.PseudoTcpSocket.constructor | agent/pseudotcp.c:802-860 | the fields at the start of data transfer: empty buffers, nothing in flight, and whatever windows, timers and recovery point the opening leaves |
| PseudoTcp.PseudoTcpSocket.ValidAtStart | agent/pseudotcp.c:802-860 | all invariants hold at the start |
| PseudoTcp.PseudoTcpSocket.Packet | agent/pseudotcp.c:1414-1469 | the packet carries rcv_nxt, the scaled window and the buffered bytes asked for; an empty one always counts as sent |
| PseudoTcp.PseudoTcpSocket.SendData | agent/pseudotcp.c:2079-2084 | the offset assertion holds, and the payload is the stream at the segment's sequence number |
| PseudoTcp.PseudoTcpSocket.WriteSegment | agent/pseudotcp.c:2074-2114 | the retry loop ends, lowering the MSS after a too-large answer and only then; what it finally writes is a front part of the segment |
| PseudoTcp.PseudoTcpSocket.Transmit | agent/pseudotcp.c:2063-2149 | transmits or retransmits one segment, in whole or in part, keeping every sender invariant; snd_nxt moves iff it was a first transmission |
| PseudoTcp.PseudoTcpSocket.Queue | agent/pseudotcp.c:1371-1402 | queues exactly what fits and records it as accepted |
| PseudoTcp.PseudoTcpSocket.SendNext | agent/pseudotcp.c:2239-2259 | cuts and transmits the first waiting segment, at most the planned bytes |
| PseudoTcp.PseudoTcpSocket.SendTurn | agent/pseudotcp.c:2165-2269 | each first transmission leaves in-flight bytes within min(snd_wnd, cwnd + allowance) as computed in that turn; an immediate ack is sent, and a delayed one sent or scheduled, iff Nagle's rule does not hold a small segment back |
| PseudoTcp.PseudoTcpSocket.SendAll | agent/pseudotcp.c:2165-2269 | the loop ends for every queue, keeps to the windows, and ends with nothing more to send or with a small segment held back |
| PseudoTcp.PseudoTcpSocket.AttemptSend | agent/pseudotcp.c:2151-2270 | if it sent anything new, and kept its MSS, all that is in flight is within min(snd_wnd, cwnd + allowance); a duplicate ack always goes out; an immediate ack goes out, and a delayed one goes out or is scheduled, iff Nagle's rule does not hold a small segment back |
| PseudoTcp.PseudoTcpSocket.RestartIfIdle | agent/pseudotcp.c:2160-2162 | after a pause longer than the timeout cwnd restarts from one segment |
| PseudoTcp.PseudoTcpSocket.TransmitHead | agent/pseudotcp.c:1742-1752 | sends the head of slist: the oldest unacknowledged bytes again, in which case snd_nxt does not move, or the first waiting ones |
| PseudoTcp.PseudoTcpSocket.Advance | agent/pseudotcp.c:1695-1731 | an accepted ack consumes at most what is in flight; queued = acknowledged + buffered stays true |
| PseudoTcp.PseudoTcpSocket.OnNewAck | agent/pseudotcp.c:1733-1764 | outside recovery cwnd grows, at the recovery point it deflates, before it the next hole is sent again; there is no byte to send iff everything is acknowledged, none waits and the recovery point counts as ahead |
| PseudoTcp.PseudoTcpSocket.OnDuplicateAck | agent/pseudotcp.c:1765-1819 | the third duplicate ack retransmits the head and enters recovery as NewReno prescribes; further ones inflate cwnd |
| Sender.AckInFlight | agent/pseudotcp.c:1661-1664 | for every number an ack may carry: it counts as new iff it lies in what is in flight |
| PseudoTcp.PseudoTcpSocket.StaleDistance | agent/pseudotcp.c:1733-1747 | an ack of everything sent, in recovery, counts as before the recovery point iff that lies 2^31 - 1 bytes or more behind, modulo 2^32; so never before that much was sent |
| PseudoTcp.PseudoTcpSocket.ProcessNewAck | agent/pseudotcp.c:1665-1764 | a new ack measures the round trip and moves snd_una; one echoing a time in the future changes nothing |
| PseudoTcp.PseudoTcpSocket.ProcessAck | agent/pseudotcp.c:1660-1819 | for every segment: snd_una moves to the acknowledged position iff that lies in what is in flight and the echoed time is not in the future; any other ack changes nothing; snd_nxt moves only on a stale ack, which finds nothing to send iff no byte waits |
| PseudoTcp.PseudoTcpSocket.Timeout | agent/pseudotcp.c:973-1016 | an armed timer implies an unacknowledged transmitted head, so the assertion is unreachable; it is sent again and the timer backs off |
| PseudoTcp.PseudoTcpSocket.SendTimedAcks | agent/pseudotcp.c:1018-1038 | exactly when a window probe or a delayed ack is sent, and when a closed window ends the connection |
| PseudoTcp.PseudoTcpSocket.NotifyClock | agent/pseudotcp.c:944-1040 | the clock sends nothing new: snd_una, snd_nxt and snd_wnd stay |
| PseudoTcp.PseudoTcpSocket.NotifyMtu | agent/pseudotcp.c:934-942 | for every MTU: the invariant survives iff the socket is closed or the packet is longer than the headers |
| PseudoTcp.PseudoTcpSocket.DrainHead | agent/pseudotcp.c:2011-2023 | the first saved segment is accepted as far as it is new and then dropped |
| PseudoTcp.PseudoTcpSocket.Drain | agent/pseudotcp.c:2008-2024 | after it no saved segment starts at or before rcv_nxt; rcv_wnd shrinks by what was accepted |
| PseudoTcp.PseudoTcpSocket.Save | agent/pseudotcp.c:2025-2038 | a segment ahead of its turn is remembered, in order, with its bytes already in place |
| PseudoTcp.PseudoTcpSocket.WriteAhead | agent/pseudotcp.c:1993-1998 | the write assertion holds; no byte already stored is disturbed |
| PseudoTcp.PseudoTcpSocket.Store | agent/pseudotcp.c:1992-2039 | in-sequence payload advances rcv_nxt over it and everything saved that it reaches; other payload is saved |
| PseudoTcp.PseudoTcpSocket.ProcessData | agent/pseudotcp.c:1958-2040 | for any genuine segment, old, overlapping, ahead or past the buffer: rbuf holds exactly the unread stream up to rcv_nxt, and rlist is sorted, beyond rcv_nxt and in place; rcv_nxt moves only over bytes the segment reaches |
| PseudoTcp.PseudoTcpSocket.CountsAsFinExact | agent/pseudotcp.c:1843-1843 | with no FIN ever received a segment counts as one iff its length, added to what was received, reaches a multiple of 2^32; so never before a word of numbers is used up |
| PseudoTcp.EndsAtZeroExample | agent/pseudotcp.c:1843-1843 | for every initial number but the last there is a byte that, arriving alone in its turn, counts as a FIN |
| PseudoTcp.PseudoTcpSocket.TakeForFin | agent/pseudotcp.c:1992-2045 | what then happens: the payload is stored and rcv_nxt ends one number too far |
| PseudoTcp.PseudoTcpSocket.SkipByte | agent/pseudotcp.c:1958-2006 | so the next segment loses its first byte, and the rest is put in its place |
| PseudoTcp.PseudoTcpSocket.ProcessPayload | agent/pseudotcp.c:1925-2048 | without a FIN: stores the payload and answers, out of sequence at once; an ack that is due is sent (or, delayed, scheduled) iff Nagle's rule does not hold a small segment back |
| PseudoTcp.PseudoTcpSocket.Process | agent/pseudotcp.c:1581-2060 | both invariants, the ack and the delivery effect of every segment within half the sequence space; it breaks down iff the segment is stale and no byte waits; a segment that counts as a FIN is told apart and no other; a payload not acknowledged is held by Nagle's rule; with a peer that keeps to its window the right edge stays and the window discipline holds, unless the segment is stale |
| PseudoTcp.PseudoTcpSocket.Reopen | agent/pseudotcp.c:1219-1231 | the right edge rcv_nxt + rcv_wnd never moves back and rcv_wnd never exceeds the free space; a window that was shut is announced iff Nagle's rule does not hold a small segment back |
| PseudoTcp.PseudoTcpSocket.Recv | agent/pseudotcp.c:1181-1234 | returns the oldest unread bytes, which continue the delivered prefix; would-block iff there is none |
| PseudoTcp.PseudoTcpSocket.Send | agent/pseudotcp.c:1236-1264 | accepts exactly what fits, then sends what the windows allow |
| PseudoTcp.PseudoTcpSocket.SentDisciplined | agent/pseudotcp.c:1427-1437 | sending below the granted edge keeps: no payload past what the peer granted, no window promised past the buffer |
| PseudoTcp.PseudoTcpSocket.SendDue | agent/pseudotcp.c:2151-2270 | so with all that attempt_send sends |
| PseudoTcpLink.ArrivalLive | agent/pseudotcp.c:534-537 | a packet sent no more than 2^31 - 2^26 - 3 bytes ago has all its positions within half the sequence space of the receiver's, so no comparison is misled |
| PseudoTcpLink.PacketGenuine | agent/pseudotcp.c:1414-1469 | every packet the peer ever sent is a true slice of its stream and keeps to the windows of both ends |
| PseudoTcpLink.Delivers | agent/pseudotcp.c:1042-1066 | a packet that is not too old: all invariants of both ends survive, stale or not |
| PseudoTcpLink.Arrives | agent/pseudotcp.c:1042-1066 | any packet ever sent may arrive, any number of times, in any order: all invariants of both ends survive; payload that follows on what was received is received as far as the buffer holds it; the socket breaks down iff the packet is stale and no byte waits; none that counts as a FIN is received as data |
| PseudoTcpLink.ArrivesAndReads | agent/pseudotcp.c:1042-1234 | a payload that follows on what was received and fits the buffer, delivered and then read, is in the reader's bytes at its place |
| PseudoTcpLink.Sends | agent/pseudotcp.c:1236-1264 | so with a send on either side |
| PseudoTcpLink.Reads | agent/pseudotcp.c:1181-1234 | with a recv, which adds exactly the oldest buffered bytes to what was read |
| PseudoTcpLink.Ticks | agent/pseudotcp.c:944-1040 | with a clock tick |
| PseudoTcpLink.Advises | agent/pseudotcp.c:934-942 | with a new MTU |
| PseudoTcpLink.Establish | agent/pseudotcp.c:802-860 | two fresh sockets that agree on their settings satisfy every invariant |
| PseudoTcpLink.LinkedPrefix | agent/pseudotcp.c:1181-1264 | what recv has returned at one end is a prefix of what send has accepted at the other |
| PseudoTcpLink.NotTakenForFin | agent/pseudotcp.c:1843-1843 | no packet counts as a FIN while the peer's initial number, its bytes and one packet stay within 2^32 |
| PseudoTcpLink.Run | agent/pseudotcp.c:1181-1264 | for every script of sends, reads, ticks, MTU changes and arrivals (lost, duplicated, reordered, delayed), in both directions, and no right edge moves back; the script stops where a socket breaks down, takes a packet for a FIN or is told an unusable MTU; none of this happens, and the windows are kept, within the stated bounds on the bytes offered |
| PseudoTcpLink.Simulate | agent/pseudotcp.c:1181-1264 | the same from two fresh sockets: for every script the bytes read at one end are a prefix of the bytes accepted at the other, and within the bounds the script runs to its end |
| States.PathsAreShort | agent/pseudotcp.c:2578-2600 | along a run no state is entered twice, nothing follows CLOSED, and there are at most seven states |
| States.ForwardEdges | agent/pseudotcp.c:2578-2600 | the edges of the table that go forward and keep the FIN predicates true |
| States.Connection.SetState | agent/pseudotcp.c:2559-2605 | the assertion fails exactly on a change that is not in the table; forward changes keep a forward run |
| States.Connection.WalkToClosed | agent/pseudotcp.c:2292-2317 | from every state CLOSED is reached through edges of the table only |
| States.Connection.Closedown | agent/pseudotcp.c:2275-2318 | so with or without an RST, even if sending that RST fails |
| States.Connection.ConnectTo | agent/pseudotcp.c:916-932 | only from LISTEN |
| States.Connection.SendFin | agent/pseudotcp.c:1326-1341 | the assertion in set_state fails exactly when data waits before the FIN and the network refuses it; otherwise the FIN counts as sent |
| States.Connection.Shutdown | agent/pseudotcp.c:1284-1358 | so in shutdown, in the states that send a FIN; with nothing waiting no assertion fails |
| States.Connection.Close | agent/pseudotcp.c:1266-1282 | a forced close always ends in CLOSED; an unforced one is a shutdown |
| States.Connection.OnFin | agent/pseudotcp.c:1845-1905 | the state after a segment stands for the FIN handshake so far: ours sent, ours acknowledged, the peer's received (Figure 6 of RFC 793) |
| States.Connection.OnControl | agent/pseudotcp.c:1632-1653 | the opening handshake |
| States.Connection.Settle | agent/pseudotcp.c:1821-2048 | what a segment makes of the state once its ack was taken; the FIN counts as received iff the stored number, zero if there was none, is reached |
| States.Connection.Process | agent/pseudotcp.c:1581-2048 | the same for whole segments, with the exact cases that close the connection; a FIN segment with data is dropped after its ack was taken |
| States.Connection.NotifyClock | agent/pseudotcp.c:944-1040 | TIME-WAIT ends in CLOSED; nothing else changes the state unless sending fails |
| States.Connection.GetNextClock | agent/pseudotcp.c:1111-1136 | when a pending shutdown closes the connection |
| States.Connection.Perform | agent/pseudotcp.c:916-1358 | every public operation keeps the invariants; the only failing assertion is that of shutdown, with refused data before the FIN |
| States.Run | agent/pseudotcp.c:2559-2605 | for every sequence of calls from LISTEN every change of state is an edge of the table and CLOSED is absorbing; if no data waiting before a FIN is refused no assertion fails |
| States.RefusedRun | agent/pseudotcp.c:1284-1358 | a run in which it fails: connect, be answered, shut down with refused data waiting |
| States.NoFinRun | agent/pseudotcp.c:1843-1853 | a run into CLOSE-WAIT without any FIN |
| Priority.PriorityDigits | agent/candidate.c:126-139 | the priority is three digits: type, local preference, 256 - component; it lies in 1..0x7effffff |
| Priority.LocalPreferenceDigits | agent/candidate.c:142-158 | direction, TURN and address preference can be read back from the local preference |
| Priority.PriorityUnique | agent/candidate.c:307-360 | equal priorities (same reliable flag) iff equal type class, transport, TURN preference, address preference and component |
| Priority.IpLocalPreference | agent/candidate.c:161-198 | the position of the first interface address equal to the candidate's, scopes stripped |
| Priority.PairPriorityStandard | agent/candidate.c:381-391 | the 32-bit product equals the formula of the standard iff both priorities are below 2^31 |
| Priority.PairPriorityEqual | agent/candidate.c:381-391 | exactly which ordered pairs share a priority, for all 32-bit priorities |
| Priority.PairPriorityOrder | agent/candidate.c:381-391 | below 2^31 the priority names the ordered pair and orders by minimum, then by maximum |
| Priority.AgentsAgree | agent/agent.c:2573-2580 | agents in opposite roles compute equal priorities for mirrored pairs |
| CheckList.InsertSorted | agent/conncheck.c:1774-1781 | the list stays sorted by non-increasing priority and gains exactly the new pair |
| CheckList.SortByPriority | agent/conncheck.c:3369-3371 | sorted, and the same pairs |
| CheckList.ThawList | agent/conncheck.c:412-427 | one list: exactly the first frozen pair of each foundation not yet seen starts waiting |
| CheckList.ThawNext | agent/conncheck.c:389-437 | if any pair is waiting nothing changes; else exactly the first frozen pair of each foundation, in stream and list order, starts waiting; the result says whether a waiting pair exists |
| CheckList.ThawTwice | agent/conncheck.c:389-437 | a second pass changes nothing |
| CheckList.ThawRelated | agent/conncheck.c:452-487 | every frozen pair of the foundation in every list starts waiting, and nothing else changes |
| CheckList.HasSucceeded | agent/conncheck.c:496-525 | whether a pair of the foundation has succeeded in any list |
| CheckList.FindNextWaiting | agent/conncheck.c:336-350 | the first waiting pair has the highest priority of those waiting |
| CheckList.Unqueue | agent/conncheck.c:310-318 | removing the first occurrence removes the pair, as the queue has no duplicates |
| CheckList.LimitList | agent/conncheck.c:2014-2057 | drops exactly the failed pairs and the frozen ones beyond the limit, from list and queue |
| CheckList.PruneList | agent/conncheck.c:2995-3076 | the loop, against a pair-by-pair account of what stays, what is unqueued and what is counted |
| CheckList.PruneLeaves | agent/conncheck.c:2995-3076 | the component keeps no frozen or waiting pair except queued ones of at least the selected priority; lower in-progress pairs are unqueued and not retransmitted |
| CheckList.PruneSparesOthers | agent/conncheck.c:3018-3021 | pairs of other components, and their place in the queue, are untouched |
| CheckList.PruneCounts | agent/conncheck.c:3075-3075 | the result counts exactly the pending pairs that remain |
| CheckList.NonePending | agent/conncheck.c:2203-2203 | a count of zero means no pending pair |
| CheckList.Reprioritize | agent/conncheck.c:3359-3373 | every pair has its priority under the present role and the list is sorted again |
| CheckList.CountNominated | agent/conncheck.c:2186-2197 | whether the component has a valid nominated pair |
| CheckList.DropList | agent/conncheck.c:4865-4883 | pairs leave list and queue together |
| ConnCheck.PairPriorityPositive | agent/conncheck.c:2074-2083 | with a local priority the agent computed, no pair has priority zero, so a pair that is selected makes the selected priority positive |
| ConnCheck.Agent.UnfreezeNext | agent/conncheck.c:389-437 | the unfreeze pass keeps all list invariants |
| ConnCheck.Agent.Succeed | agent/conncheck.c:3453-3608 | a success unfreezes its foundation everywhere, so no frozen pair shares a foundation with a succeeded one |
| ConnCheck.Agent.SucceedUnmapped | agent/conncheck.c:3591-3608 | so without a mapped address in the response: the pair is valid, loses one request and may stay queued |
| ConnCheck.Agent.Fail | agent/conncheck.c:625-633 | a failed check keeps the invariants |
| ConnCheck.Agent.Initiate | agent/conncheck.c:356-376 | a started check keeps the invariants; one whose request cannot be sent fails, and its list is pruned if the component has a nominated pair |
| ConnCheck.Agent.Nominate | agent/conncheck.c:2065-2093 | a nominated pair is selected iff its priority exceeds that of the selected one; a component with a nominated pair has a selected one of positive priority, unless its selection was cleared since |
| ConnCheck.Agent.UpdateSelected | agent/conncheck.c:2065-2093 | selects a better pair; if the selected relay was only kept for this, its socket is pruned first, and the assertion in pruning fails iff that leaves a nominated pair and the priority is zero |
| ConnCheck.Agent.Reselect | agent/agent.c:3806-3822 | after priorities changed: the selected pair is a best nominated one, or was selected with a priority at least as high; the assertion that there is a selected pair fails iff there is a nominated pair and none selected |
| ConnCheck.Agent.Rename | agent/agent.c:3641-3681 | a pair takes a new foundation: with no frozen pair sharing a foundation with a succeeded one before, so after, unless a frozen pair takes a foundation that has succeeded; exactly then it is left frozen |
| ConnCheck.MissedExample | agent/agent.c:3641-3681 | two pairs for which that happens |
| ConnCheck.Agent.Trigger | agent/conncheck.c:299-308 | a pair is queued at most once |
| ConnCheck.Agent.TakeTriggered | agent/conncheck.c:320-332 | what is taken from the queue is still in a list |
| ConnCheck.Agent.Limit | agent/conncheck.c:2014-2057 | the size limit keeps the invariants |
| ConnCheck.Agent.DropPairs | agent/conncheck.c:4864-4883 | pairs on a lost socket leave list and queue, keeping the invariants |
| ConnCheck.Agent.PruneSocket | agent/conncheck.c:4849-4890 | if there were any, the component is looked at again |
| ConnCheck.Agent.LoseSocket | agent/component.c:167-236 | losing a socket keeps the list invariants and clears the selection made of it; nominated pairs on other sockets stay |
| ConnCheck.Agent.ForgetRelay | agent/component.c:266-293 | a selected relay stays selected with priority zero |
| ConnCheck.FailAfterLoss | agent/component.c:167-236 | from every state with a second nominated pair: losing the selected pair's socket makes the next look at the component fail its assertion |
| ConnCheck.FailAfterForgetting | agent/component.c:254-311 | so does forgetting the relays when one is selected, another has a pair and a nominated pair is elsewhere |
| ConnCheck.FailAtNomination | agent/component.c:475-511 | and so does the next nomination of a pair on another socket |
| ConnCheck.Agent.Prune | agent/conncheck.c:2995-3076 | pruning keeps the invariants; its result counts what remains pending |
| ConnCheck.Agent.Conclude | agent/conncheck.c:2203-2216 | every step to READY is in the transition table |
| ConnCheck.Agent.UpdateForReady | agent/conncheck.c:2178-2219 | READY exactly when a valid nominated pair exists and, after pruning, no pending one remains; the assertion before pruning fails iff there is such a pair and the selected priority is zero, which needs a cleared selection |
| ConnCheck.Agent.Insert | agent/conncheck.c:2332-2376 | a new frozen pair starts waiting iff a pair of its foundation has succeeded |
| ConnCheck.Agent.AddPair | agent/conncheck.c:2305-2430 | no pair below the selected priority; afterwards no failed pair and no frozen pair beyond the limit is left, and no other pair was dropped; the component-state change is in the table |
| ConnCheck.Agent.AddDiscovered | agent/conncheck.c:3302-3353 | a discovered pair enters in order with the priority of the present role |
| ConnCheck.Agent.Recalculate | agent/conncheck.c:3359-3373 | after a role or priority change every list is current and sorted, with the same pairs |
| ConnCheck.Agent.SetRole | agent/conncheck.c:3379-3393 | a role switch keeps the order invariant |
| ConnCheck.Agent.SetRemote | agent/agent.c:3768-3802 | so does a remote candidate's new priority; new foundations and the new selection are the steps Rename and Reselect |
| ConnCheck.CheckOrdinary | agent/conncheck.c:746-773 | the best waiting pair is checked, or fails if its request cannot be sent |
| ConnCheck.CheckTriggered | agent/conncheck.c:775-793 | the oldest queued pair is checked, or fails |
| ConnCheck.Run | agent/conncheck.c:299-3608 | in every run of these steps each list is sorted by current priorities and the queue holds no freed or repeated pair; no frozen pair shares a foundation with a succeeded one, unless a frozen pair was renamed to one; no assertion fails unless a selection was cleared |
| ConnCheck.AgentsRankAlike | agent/agent.c:2573-2580 | two agents in opposite roles that agree on the priorities of the candidates rank the pairs they share identically, whatever else either knows |
| Foundations.EqualAlike | agent/address.c:386-405 | the address comparison tells addresses apart iff it is not the case that one IPv6 address has its scope given once and not given once |
| Foundations.MatchesOrigin | agent/discovery.c:469-505 | candidates of equal type, transport, base IP and (relayed) server IP match; a match means these are equal iff the compared addresses agree on whether their scope is given |
| Foundations.WildcardScope | agent/address.c:386-405 | otherwise the test is no equivalence |
| Foundations.WildcardRun | agent/discovery.c:486-530 | a run in which three candidates with different addresses share a foundation |
| Foundations.Gatherer.AssignFoundation | agent/discovery.c:486-530 | the foundation of a matching candidate, or a fresh one iff none matches; for compatible addresses that of exactly the candidates with the same origin |
| Foundations.Gatherer.Add | agent/discovery.c:414-436 | added iff not redundant in its component |
| Foundations.Gatherer.Remove | agent/discovery.c:486-530 | removing a candidate leaves the others' foundations right |
| Foundations.Run | agent/discovery.c:486-530 | every run of additions and removals ends with exactly the candidates that were added, not redundant and not removed; if no address occurs both with and without a scope, two candidates have the same foundation exactly when type, transport, base IP and (relayed) server IP agree |
| Foundations.Pigeonhole | agent/discovery.c:438-462 | n taken names need n candidates |
| Foundations.HighestRemoteFoundation | agent/discovery.c:438-462 | the search ends, with the least index not taken |
| RefreshPrune.RefreshList.PruneAsync | agent/discovery.c:297-330 | claims exactly the refreshes no earlier prune has claimed; completes at once iff there is none |
| RefreshPrune.RefreshList.Free | agent/discovery.c:150-176 | frees one refresh; its prune completes iff it was the last one claimed |
| RefreshPrune.Run | agent/discovery.c:285-407 | for every interleaving of prunes and frees no prune completes twice, and those completed are exactly those with no claimed refresh left |
| CandidateSdp.GenerateSdp | agent/agent.c:6512-6538 | the printed line is the candidate's words, one space apart |
| CandidateSdp.ParseSdp | agent/agent.c:6798-6925 | the token loop against a reading of the words, with every error case |
| CandidateSdp.SignedRoundTrip | agent/agent.c:6521-6525 | every 32-bit component id and priority survives, although those from 2^31 on print as negative numbers |
| CandidateSdp.SplitJoin | agent/agent.c:6826-6826 | splitting undoes joining for words without spaces |
| CandidateSdp.RoundTrip | agent/agent.c:6512-6925 | parsing the printed line gives back type, transport, component, priority, foundation, address and differing base address, port zero read as nine |
| CandidateSdp.AnnouncedSame | agent/agent.c:6512-6538 | the candidate itself comes back iff no port is zero and a base address, if any, differs from the address |

## Left out

- The opening and closing bytes of pseudo-TCP inside data transfer: connect segments advance `rcv_nxt` without entering the buffer, and FIN and RST take a sequence number but no byte. `PseudoTcp` begins after the first and ends at closedown; `States` has the state changes.
- What a socket still sends once it is closed: the RST flush and the window announcement by recv.
- `set_capacity` and window-scale negotiation during data transfer: buffers keep their size in `Socket`, and the scales are agreed in `Link`.
- `largest`, `last_traffic`, `bOutgoing`, `bReadEnable`, `bWriteEnable` and the readable, writable, opened and closed callbacks: written or called, never read by what is modelled. Callbacks do not re-enter.
- Option parsing, and what the numbers of a segment amount to: `States.Connection.Process` takes the outcome of the acknowledgement, and `rcv_nxt`, as inputs.
- Liveness: nothing says that a byte is eventually delivered.
- Sockets, timers as event sources, locks, signals, properties, UPnP, proxies and STUN or TURN messages.
- The tie-breaker of a role conflict: `SetRole` takes the outcome.
- ICE restarts, a selection forced by the user, renomination, and the Google, MSN and OC2007 modes.
- Links between succeeded and discovered pairs.
- Component-state changes other than those of adding a pair and of becoming ready.
- ConnCheck.Run: whether a priority change lets a better nominated pair go unselected until the next `Reselect`, as it may in the code after a role switch.
- Choice of the local candidate and socket that a check or a response belongs to: the steps of `ConnCheck.Run` name the pair.
- RFC 4571 framing and the message-scattering loops of the agent.
- Text of IP addresses: `CandidateSdp.RoundTrip` takes any faithful codec without spaces.
- Foundations.Run: for fewer than 2^32 - 2 operations, since the counter is a 32-bit word that wraps.
- PseudoTcpLink.Run: delivers a packet only while it is no older than `MAX_AGE` bytes, and does not follow a socket past a segment taken for a FIN or an MTU within the headers; see the points above.
- PseudoTcpLink.Advises: for an MTU longer than the headers; `PseudoTcp.PseudoTcpSocket.NotifyMtu` has the rest.
- PseudoTcp.PseudoTcpSocket.OnNewAck: what the code does once it found no byte to send again; the model stops there.
- PseudoTcp.PseudoTcpSocket.Process: asks that the positions of the segment are within half the sequence space of the receiver's, which `PseudoTcpLink.ArrivalLive` establishes.
- PseudoTcp.PseudoTcpSocket.ProcessPayload: for a segment that does not count as a FIN; `TakeForFin` has the rest.
