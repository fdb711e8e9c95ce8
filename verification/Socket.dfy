/**
 The pseudo-TCP socket during data transfer: after the connect segments have been absorbed and
 until a FIN or RST is queued or received.

 Ghost fields record stream positions next to the wrapped sequence numbers, and the two streams
 the socket takes part in: the bytes it accepted from its user, and those it delivered.
 */
module PseudoTcp {
  import opened Wrap32
  import opened Fifo
  import opened Header
  import opened SendQueue
  import opened Reassembly
  import opened Journal
  import opened Sender

  /** The send flags of the data phase; `sfFin` and `sfRst` belong to closing. */
  datatype SendFlags = SfNone | SfDelayedAck | SfImmediateAck | SfDuplicateAck

  datatype Status = Transmitted | TimedOut | Aborted | MessageTooLong

  const MAX_SEND_BUFFER := 0x400_0000
  const CLOSED_WINDOW_TIMEOUT := 15000

  /** The user's callback: whatever it does with the packet, it may answer anything. */
  method WritePacket(packet: seq<byte>) returns (r: WriteResult)
  {
    r := *;
  }

  // The socket's fields, grouped as in the source.

  datatype Incoming = Incoming(rlist: seq<RSegment>, rcvNxt: u32, rcvWnd: u32, tsRecent: u32)

  datatype Clock = Clock(lastsend: u32, lastrecv: u32, tAck: u32, tsLastack: u32,
                         rxSrtt: u32, rxRttvar: u32, rxRto: u32, lastAckedTs: u32)

  /** What became of an acknowledgement; `NoSegment`: a segment was to be sent again and there was no byte. */
  datatype AckResult = AckTaken | AckFailed | NoSegment

  /**
   What became of a segment; `Stuck`: a segment was to be sent again and there was no byte;
   `TakenForFin`: it counts as a FIN though none ever came.
   */
  datatype Outcome = Processed | Dropped | Stuck | TakenForFin

  predicate EndsAtZero(rcvNxt: u32, n: nat) {
    rcvNxt != 0 && Add32(rcvNxt, n) == 0
  }

  /** Every stream has a byte that, arriving alone and in its turn, ends there. */
  lemma EndsAtZeroExample(irs: u32)
    requires irs < WORD - 1
    ensures var pos := WORD - 1 - irs; At(irs, pos) == WORD - 1 && EndsAtZero(At(irs, pos), 1)
  {
  }

  /** The clock but for what sending a packet sets. */
  ghost predicate SameRtt(a: Clock, b: Clock) {
    b == a.(lastsend := b.lastsend, tAck := b.tAck, tsLastack := b.tsLastack)
  }

  /**
   What the opening handshake leaves to data transfer. The recovery point lies `behind` bytes
   before the stream: in the source both numbers start at zero, and the connect segment counts.
   */
  datatype Opening = Opening(sndWnd: u32, mss: u32, msslevel: nat, ssthresh: u32, cwnd: u32, behind: nat, clock: Clock)

  predicate Usable(o: Opening) {
    0 < o.mss <= MAX_MSS && o.msslevel <= LAST_LEVEL && o.ssthresh > 0
  }

  function FirstOutgoing(iss: u32, o: Opening): Outgoing {
    Outgoing([], [], 0, iss, iss, o.sndWnd, o.mss, o.msslevel, 0, o.ssthresh, o.cwnd, 0, At(iss, 0 - o.behind), false)
  }

  datatype RecvResult = RecvWouldBlock | Received(data: seq<byte>)

  datatype SendResult = NotConnected | SendWouldBlock | Accepted(n: nat)

  class PseudoTcpSocket {
    const conv: u32
    const rwndScale: nat
    const swndScale: nat
    const ackDelay: u32
    const useNagling: bool
    const supportFinAck: bool
    const sbuf: PseudoTcpFifo
    const rbuf: PseudoTcpFifo

    /** The state is CLOSED; while it is not, it is ESTABLISHED. */
    var closed: bool
    var rx: Incoming
    var tx: Outgoing
    var clock: Clock

    /** Every segment ever handed to the network, in order. */
    var out: seq<Segment>

    /** How far before the stream the recovery point lay when data transfer began. */
    ghost const behind: nat
    ghost const iss: u32
    ghost const irs: u32
    ghost var tags: seq<Tag>
    /** The bytes accepted from the user, and the bytes returned to the user. */
    ghost var accepted: seq<byte>
    ghost var delivered: seq<byte>
    ghost var track: Track
    ghost var rpos: seq<nat>

    // Invariants

    ghost predicate Separate()
      reads sbuf, rbuf
    {
      sbuf != rbuf && sbuf.buffer != rbuf.buffer
    }

    /** The send buffer holds exactly the accepted bytes that are not yet acknowledged. */
    ghost predicate Buffered(una: nat)
      reads `accepted, sbuf, sbuf.buffer
    {
      && sbuf.Valid() && sbuf.buffer.Length <= MAX_SEND_BUFFER
      && una + sbuf.dataLength == |accepted|
      && sbuf.Contents() == accepted[una..]
    }

    /** Position of the next byte expected from the peer. */
    ghost function Rcv(): nat
      reads `delivered, rbuf
    {
      |delivered| + rbuf.dataLength
    }

    /** The state in which segments may be sent. */
    ghost predicate Ready()
      reads `tx, `rx, `out, `tags, `accepted, `delivered, `track, sbuf, sbuf.buffer, rbuf
    {
      && Buffered(track.una)
      && Tracks(tx, track, iss, |accepted|)
      && AllGenuine(out, tags, conv, iss, irs, accepted)
      && rbuf.Valid() && rx.rcvNxt == At(irs, Rcv()) && 0 <= track.rec + behind
    }

    /** The segments sent since the history was `out0` carry the present window, and no byte at or past `bound`. */
    ghost predicate Sent(out0: seq<Segment>, tags0: seq<Tag>, bound: nat)
      reads `out, `tags, `track, `delivered, `rx, rbuf
    {
      Extends(out0, tags0, out, tags, track.una, Rcv(), Advertised(rx.rcvWnd, rwndScale), bound)
    }

    /** Everything received agrees with `stream`, the bytes the peer has accepted so far. */
    ghost predicate RecvValid(stream: seq<byte>)
      reads `rx, `delivered, `rpos, rbuf, rbuf.buffer
    {
      && rbuf.Valid() && rbuf.buffer.Length < WINDOW
      && rx.rcvNxt == At(irs, Rcv())
      && InPlace(rbuf.Ring(), delivered, rbuf.dataLength, stream, rx.rlist, rpos, irs, Rcv())
    }

    lemma ReceivedPrefix(stream: seq<byte>)
      requires RecvValid(stream)
      ensures delivered <= stream && Rcv() <= |stream|
    {
    }

    /** Nothing changes when the peer's stream grows. */
    lemma ReceivedGrows(stream: seq<byte>, longer: seq<byte>)
      requires RecvValid(stream) && stream <= longer
      ensures RecvValid(longer)
    {
      hide Holds, Saved, RingOf;
      HoldsAfterGrowth(rbuf.Ring(), |delivered|, stream, longer, |delivered|, Rcv());
      SavedAfterGrowth(rx.rlist, rpos, irs, rbuf.Ring(), |delivered|, stream, longer, Rcv());
    }

    /** Right edge of the receive window. */
    ghost function Edge(): nat
      reads `delivered, `rx, rbuf
    {
      Rcv() + rx.rcvWnd
    }

    /** The advertised window never promises space that is not there. */
    ghost predicate WindowValid()
      reads `rx, `delivered, `rpos, `out, `tags, rbuf
    {
      && Edge() <= |delivered| + rbuf.buffer.Length
      && rbuf.buffer.Length <= Shl(0xFFFF, rwndScale)
      && SavedWithin(rx.rlist, rpos, Edge())
      && PromisedWithin(out, tags, rwndScale, Edge())
    }

    /** A socket that has just become ESTABLISHED: empty buffers, nothing in flight. */
    constructor (conv: u32, localSeq: u32, peerSeq: u32, sendCapacity: nat, recvCapacity: nat,
                 rwndScale: nat, swndScale: nat, ackDelay: u32, useNagling: bool, supportFinAck: bool, left: Opening)
      requires 0 < sendCapacity <= MAX_SEND_BUFFER && 0 < recvCapacity < WINDOW && Usable(left)
      ensures AtStart(recvCapacity, left) && Separate() && sbuf.buffer.Length == sendCapacity
      ensures fresh(sbuf) && fresh(rbuf) && fresh(sbuf.buffer) && fresh(rbuf.buffer)
      ensures this.conv == conv && iss == localSeq && irs == peerSeq && behind == left.behind
      ensures this.rwndScale == rwndScale && this.swndScale == swndScale && this.supportFinAck == supportFinAck
    {
      hide RingOf;
      this.conv, this.rwndScale, this.swndScale := conv, rwndScale, swndScale;
      this.ackDelay, this.useNagling, this.supportFinAck := ackDelay, useNagling, supportFinAck;
      var s := new PseudoTcpFifo(sendCapacity);
      var r := new PseudoTcpFifo(recvCapacity);
      sbuf, rbuf := s, r;
      closed := false;
      rx := Incoming([], peerSeq, recvCapacity, 0);
      tx := FirstOutgoing(localSeq, left);
      clock := left.clock;
      out, tags := [], [];
      iss, irs, behind := localSeq, peerSeq, left.behind;
      accepted, delivered, rpos := [], [], [];
      track := Track(0, 0, 0 - left.behind, [0]);
    }

    /** The fields of a socket that has neither sent nor received anything. */
    ghost predicate AtStart(recvCapacity: nat, left: Opening)
      reads this, sbuf, rbuf
    {
      && recvCapacity < WORD
      && sbuf.Valid() && rbuf.Valid() && sbuf.dataLength == 0 && rbuf.dataLength == 0
      && rbuf.buffer.Length == recvCapacity && !closed
      && rx == Incoming([], irs, recvCapacity, 0) && tx == FirstOutgoing(iss, left) && clock == left.clock
      && out == [] && tags == [] && accepted == [] && delivered == [] && rpos == []
      && track == Track(0, 0, 0 - left.behind, [0]) && behind == left.behind
    }

    /** All invariants hold at the start. */
    lemma ValidAtStart(recvCapacity: nat, left: Opening)
      requires AtStart(recvCapacity, left) && recvCapacity < WINDOW && Usable(left)
      requires sbuf.buffer.Length <= MAX_SEND_BUFFER
      ensures Ready() && RecvValid([]) && SendEdge() == left.sndWnd
      ensures recvCapacity <= Shl(0xFFFF, rwndScale) ==> WindowValid()
    {
      hide Shl;
      assert At(iss, 0) == iss && At(irs, 0) == irs;
    }

    /** Creates a packet and hands it to the network; an empty one always counts as sent. */
    method Packet(seqno: u32, flags: byte, offset: nat, len: nat, now: u32, ghost pos: int) returns (wres: WriteResult)
      requires sbuf.Valid() && offset + len <= sbuf.dataLength
      requires HEADER_SIZE + len <= MAX_PACKET
      modifies `out, `tags, `clock
      ensures out == old(out) + [Segment(conv, seqno, rx.rcvNxt, flags, Advertised(rx.rcvWnd, rwndScale), now,
                                         rx.tsRecent, sbuf.Contents()[offset..offset + len])]
      ensures |tags| == |old(tags)| + 1 && tags == old(tags) + [Tag(pos, Rcv(), tags[|old(tags)|].answer)]
      ensures wres == if len == 0 then WriteSuccess else tags[|old(tags)|].answer
      ensures clock == if wres == WriteSuccess
                       then old(clock).(tsLastack := rx.rcvNxt, tAck := 0,
                                        lastsend := if len > 0 then now else old(clock).lastsend)
                       else old(clock).(tsLastack := rx.rcvNxt)
    {
      var data := [];
      if len != 0 {
        data := sbuf.ReadOffset(len, offset);
        assert |data| == len;
      }
      assert data == sbuf.Contents()[offset..offset + len];
      var segment := Segment(conv, seqno, rx.rcvNxt, flags, Advertised(rx.rcvWnd, rwndScale), now, rx.tsRecent, data);
      clock := clock.(tsLastack := rx.rcvNxt);
      wres := WritePacket(Encode(segment));
      out := out + [segment];
      tags := tags + [Tag(pos, Rcv(), wres)];
      if wres != WriteSuccess && len != 0 {
        return;
      }
      clock := clock.(tAck := 0);
      if len > 0 {
        clock := clock.(lastsend := now);
      }
      wres := WriteSuccess;
    }

    /** A bare acknowledgement at stream position `pos`. */
    method SendAck(seqno: u32, now: u32, ghost pos: int)
      requires Ready() && seqno == At(iss, pos) && track.una - 1 <= pos <= |accepted|
      modifies `out, `tags, `clock
      ensures Ready() && Sent(old(out), old(tags), 0)
      ensures |out| == old(|out|) + 1 && out[old(|out|)].data == [] && out[old(|out|)].seqno == seqno
      ensures clock == old(clock).(tsLastack := rx.rcvNxt, tAck := 0)
    {
      hide Tracks, AllGenuine, Extends;
      ghost var out0, tags0 := out, tags;
      var wres := Packet(seqno, 0, 0, 0, now, pos);
      AllGenuineAppend(out0, tags0, conv, iss, irs, accepted, out[|out0|], tags[|tags0|], track.una) by {
        AllGenuineLength(out0, tags0, conv, iss, irs, accepted);
      }
    }

    /** `n` bytes of payload from stream position `pos` on. */
    method SendData(seqno: u32, n: nat, now: u32, ghost pos: nat) returns (wres: WriteResult)
      requires Ready()
      requires seqno == At(iss, pos) && track.una <= pos && pos + n <= |accepted| && 0 < n <= MAX_MSS
      modifies `out, `tags, `clock
      ensures Ready() && Sent(old(out), old(tags), pos + n) && SameRtt(old(clock), clock)
      ensures |out| == |tags| == old(|out|) + 1 && out[old(|out|)].seqno == seqno && |out[old(|out|)].data| == n
      ensures wres == tags[old(|out|)].answer
    {
      hide Queued, AllGenuine, Extends;
      AtDistance(iss, pos, track.una);
      var offset := Sub32(seqno, tx.sndUna);
      assert offset <= MAX_SEND_BUFFER;
      SliceOfTail(accepted, track.una, offset, n);
      ghost var out0, tags0 := out, tags;
      wres := Packet(seqno, 0, offset, n, now, pos);
      AllGenuineAppend(out0, tags0, conv, iss, irs, accepted, out[|out0|], tags[|tags0|], track.una);
    }

    lemma SentNothing(bound: nat)
      requires |tags| == |out|
      ensures Sent(out, tags, bound)
    {
    }

    lemma SentAlso(out0: seq<Segment>, tags0: seq<Tag>, out1: seq<Segment>, tags1: seq<Tag>, bound: nat, limit: nat)
      requires Extends(out0, tags0, out1, tags1, track.una, Rcv(), Advertised(rx.rcvWnd, rwndScale), limit)
      requires Sent(out1, tags1, bound) && bound <= limit
      ensures Sent(out0, tags0, limit)
    {
      ExtendsFurther(out0, tags0, out1, tags1, out, tags, track.una, Rcv(), Advertised(rx.rcvWnd, rwndScale), bound,
                     limit);
    }

    lemma SentGrows(out0: seq<Segment>, tags0: seq<Tag>, bound: nat)
      requires Sent(out0, tags0, bound)
      ensures out0 <= out && tags0 <= tags && SentFrom(tags, |tags0|, track.una - 1, Rcv(), Rcv())
    {
    }

    lemma SentBelow(out0: seq<Segment>, tags0: seq<Tag>, bound: nat, limit: nat)
      requires Sent(out0, tags0, bound) && bound <= limit
      ensures Sent(out0, tags0, limit)
    {
      ExtendsBelow(out0, tags0, out, tags, track.una, Rcv(), Advertised(rx.rcvWnd, rwndScale), bound, limit);
    }

    lemma SizeFacts()
      requires Ready()
      ensures 0 < tx.mss <= MAX_MSS && tx.msslevel <= LAST_LEVEL && |tags| == |out|
    {
      hide Queued, AllGenuine, Buffered;
      AllGenuineLength(out, tags, conv, iss, irs, accepted);
    }

    /** The retry loop of `transmit`: write a front part of the segment, smaller after each refusal. */
    method WriteSegment(segment: SSegment, now: u32, ghost pos: nat) returns (status: Status, n: nat)
      requires Ready()
      requires segment.seqno == At(iss, pos) && track.una <= pos && pos + segment.len <= |accepted|
      requires segment.len >= 1
      modifies `out, `tags, `clock, `tx
      ensures Ready() && Sent(old(out), old(tags), pos + Min(segment.len, old(tx).mss))
      ensures tx == old(tx).(mss := tx.mss, msslevel := tx.msslevel, cwnd := tx.cwnd)
      ensures status == Transmitted ==> 0 < n <= Min(segment.len, old(tx).mss)
      ensures status == Transmitted ==>
                |out| > |old(out)| && out[|out| - 1].seqno == segment.seqno && |out[|out| - 1].data| == n
      ensures Transmits(old(tx), tx) && SameRtt(old(clock), clock)
      ensures |old(out)| < |out| == |tags| && tags[|tags| - 1].answer == match status
                case Transmitted => WriteSuccess case Aborted => WriteFail case _ => WriteTooLarge
      ensures status != TimedOut && (status == MessageTooLong ==> tx.msslevel == LAST_LEVEL)
      ensures tags[|old(out)|].answer != WriteTooLarge ==> tx == old(tx)
      ensures AllTooLarge(tags, |old(out)|, |out| - 1)
    {
      hide Tracks, AllGenuine, Extends, Buffered, AllTooLarge;
      SizeFacts();
      AllTooLargeNone(tags, |out|);
      n := Min(segment.len, tx.mss);
      status := Transmitted;
      ghost var bound := pos + n;
      SentNothing(bound);
      while true
        invariant Ready() && Sent(old(out), old(tags), bound)
        invariant tx == old(tx).(mss := tx.mss, msslevel := tx.msslevel, cwnd := tx.cwnd)
        invariant 0 < n <= tx.mss <= MAX_MSS && pos + n <= bound && tx.msslevel <= LAST_LEVEL
        invariant Transmits(old(tx), tx) && SameRtt(old(clock), clock) && |old(out)| <= |out| == |tags|
                  && status == Transmitted
        invariant |out| == |old(out)| ==> tx == old(tx)
        invariant AllTooLarge(tags, |old(out)|, |tags|)
        decreases LAST_LEVEL - tx.msslevel
      {
        ghost var out1, tags1 := out, tags;
        var wres := SendData(segment.seqno, n, now, pos);
        SentGrows(out1, tags1, pos + n);
        SentAlso(old(out), old(tags), out1, tags1, pos + n, bound);
        AllTooLargeNext(tags1, |old(out)|, tags);
        if wres == WriteSuccess {
          break;
        }
        if wres == WriteFail {
          status := Aborted;
          break;
        }
        var fits, tx', smaller := LowerMss(tx, n);
        TracksAnySize(tx, tx', track, iss, |accepted|);
        tx := tx';
        if !fits {
          status := MessageTooLong;
          break;
        }
        n := smaller;
      }
    }

    /** Sends the segment named `id`, in whole or in part, for the first time or again. */
    method Transmit(id: SegmentId, now: u32, ghost limit: nat) returns (status: Status)
      requires Ready() && Sendable(tx, Find(tx.slist, id))
      requires track.nxt + (if tx.slist[Find(tx.slist, id)].xmit == 0
                            then Min(tx.slist[Find(tx.slist, id)].len, tx.mss) else 0) <= limit
      modifies `out, `tags, `clock, `tx, `track
      ensures Ready() && Sent(old(out), old(tags), limit)
      ensures track == old(track).(nxt := track.nxt, marks := track.marks)
      ensures Transmits(old(tx), tx) && SameRtt(old(clock), clock)
      ensures status == Transmitted ==> track.una < track.nxt
      ensures status == TimedOut <==> old(tx.slist[Find(tx.slist, id)]).xmit >= if closed then 30 else 15
      ensures status == TimedOut ==> out == old(out) && tx == old(tx)
      ensures status == Transmitted ==>
                && |out| > |old(out)| && out[|out| - 1].seqno == old(tx.slist[Find(tx.slist, id)]).seqno
                && tx.rtoBase == if old(tx).rtoBase == 0 then now else old(tx).rtoBase
      ensures old(track.nxt) <= track.nxt <= limit
      ensures old(track.nxt) < track.nxt <==> status == Transmitted && old(tx.slist[Find(tx.slist, id)]).xmit == 0
    {
      hide Tracks, AllGenuine, Extends, Buffered;
      var i := Find(tx.slist, id);
      var segment := tx.slist[i];
      SizeFacts();
      if segment.xmit >= if closed then 30 else 15 {
        SentNothing(limit);
        return TimedOut;
      }
      SendablePosition(tx, i, track, iss, |accepted|);
      ghost var pos := if segment.xmit == 0 then track.nxt else track.una;
      ghost var bound := pos + Min(segment.len, tx.mss);
      var n;
      status, n := WriteSegment(segment, now, pos);
      SentBelow(old(out), old(tags), bound, limit);
      if status != Transmitted {
        return;
      }
      tx, track := RecordTransmission(tx, i, n, now, track, iss, |accepted|);
    }

    /** Appends as much of `data` as fits to the send buffer and the segment list. */
    method Queue(data: seq<byte>) returns (written: nat)
      requires Ready() && Separate()
      modifies `tx, `track, `accepted, sbuf`dataLength, sbuf.buffer
      ensures Ready()
      ensures written == Min(|data|, old(sbuf.WriteRemaining()))
      ensures accepted == old(accepted) + data[..written]
      ensures track == old(track).(marks := track.marks)
      ensures tx == old(tx).(slist := tx.slist, unsent := tx.unsent, nextId := tx.nextId)
    {
      hide Tracks, AllGenuine;
      var len := Min(|data|, sbuf.WriteRemaining());
      tx, track := EnqueueSegment(tx, sbuf.dataLength, len, track, iss);
      var more := data[..len];
      written := sbuf.Write(more);
      assert written == len && more[..written] == more;
      assert (accepted + more)[track.una..] == accepted[track.una..] + more;
      AllGenuineGrows(out, tags, conv, iss, irs, accepted, accepted + more);
      accepted := accepted + more;
    }

    /** The right edge of what the peer lets us send. */
    ghost function SendEdge(): nat
      reads `tx, `track
    {
      Max(track.nxt, track.una + tx.sndWnd)
    }

    /** Transmits the first waiting segment, cut to `available` bytes. */
    method SendNext(available: nat, now: u32) returns (status: Status)
      requires Ready() && 0 < available <= tx.mss && tx.unsent != [] && track.nxt + available <= |accepted|
      modifies `out, `tags, `clock, `tx, `track
      ensures Ready() && Sent(old(out), old(tags), old(track.nxt) + available)
      ensures track == old(track).(nxt := track.nxt, marks := track.marks)
      ensures Transmits(old(tx), tx) && SameRtt(old(clock), clock)
      ensures old(track.nxt) <= track.nxt <= old(track.nxt) + available
      ensures status == Transmitted ==> old(track.nxt) < track.nxt && |out| > |old(out)|
    {
      hide Tracks, AllGenuine, Extends, Buffered, Find;
      tx, track := CutNext(tx, available, track, iss, |accepted|);
      status := Transmit(tx.unsent[0], now, track.nxt + available);
    }

    /** What the invariant says about the numbers `attempt_send` computes with. */
    lemma FlightFacts()
      requires Ready()
      ensures track.una <= track.nxt <= |accepted| && track.una + sbuf.dataLength == |accepted|
      ensures Sub32(tx.sndNxt, tx.sndUna) == track.nxt - track.una && tx.sndNxt == At(iss, track.nxt)
      ensures 0 < tx.mss && |tags| == |out| && rbuf.Valid() && sbuf.Valid() && sbuf.dataLength <= MAX_SEND_BUFFER
      ensures tx.unsent == [] ==> track.nxt == |accepted|
    {
      HeadInFlight(tx.slist, tx.unsent, track.marks, tx.nextId, iss, track.una, track.nxt, |accepted|);
      HeadWaiting(tx.slist, tx.unsent, track.marks, tx.nextId, iss, track.una, track.nxt, |accepted|);
      AtDistance(iss, track.nxt, track.una);
    }

    lemma PositionsWithin()
      requires Ready()
      ensures forall k {:trigger tags[k]} :: 0 <= k < |tags| ==> tags[k].pos <= |accepted|
    {
      hide Tracks, Buffered, At;
    }

    /** What the windows allow to send next. */
    function Planned(): Plan
      reads `tx, sbuf
    {
      SendPlan(tx.sndWnd, tx.cwnd, tx.dupAcks, tx.mss, Sub32(tx.sndNxt, tx.sndUna), sbuf.dataLength)
    }

    /** Nothing more may be sent now: the windows allow no byte, or Nagle's rule holds a small segment back. */
    ghost predicate Quiet()
      reads `tx, sbuf
    {
      Planned().available == 0 || HeldBack(tx, sbuf.dataLength, useNagling)
    }

    /**
     One turn of `attempt_send`. Whatever it transmits for the first time stays within the peer's
     window and the congestion window (with the limited-transmit allowance) of that turn.
     */
    method SendTurn(sflags: SendFlags, now: u32) returns (sflags': SendFlags, again: bool)
      requires Ready()
      modifies `out, `tags, `clock, `tx, `track, `closed
      ensures Ready() && Sent(old(out), old(tags), old(SendEdge()))
      ensures SendsOn(old(tx), old(track), tx, track)
      ensures track.nxt > old(track.nxt) ==>
                track.nxt - track.una <= Allowance(old(tx.cwnd), old(tx.dupAcks), old(tx.mss))
      ensures again ==> || track.nxt > old(track.nxt)
                        || (track.nxt == old(track.nxt) && sflags == SfDuplicateAck && sflags' != SfDuplicateAck)
      ensures !again ==> sflags' == sflags && (closed || Quiet())
      ensures old(closed) ==> closed
      ensures again ==> sflags' == SfNone && |out| > old(|out|)
      ensures sflags == SfImmediateAck && !old(closed) ==>
                (closed || |out| > old(|out|) <==> !old(HeldBack(tx, sbuf.dataLength, useNagling)))
      ensures sflags == SfDelayedAck && !old(closed) && now != 0 ==>
                (closed || |out| > old(|out|) || clock.tAck != 0
                 <==> !old(HeldBack(tx, sbuf.dataLength, useNagling)) || old(clock).tAck != 0)
      ensures sflags != SfDuplicateAck && old(HeldBack(tx, sbuf.dataLength, useNagling)) ==> tx == old(tx)
      ensures sflags == SfDelayedAck && old(Planned()).available == 0 ==>
                if old(clock).tAck == 0 then clock == old(clock).(tAck := now) && out == old(out)
                else clock.tAck == 0 && |out| > old(|out|)
      ensures sflags == SfDuplicateAck ==> |out| > old(|out|) && again
    {
      hide Ready, Extends;
      FlightFacts();
      ghost var edge := SendEdge();
      SentNothing(edge);
      sflags', again := sflags, false;
      var plan := Planned();
      if sflags == SfDuplicateAck {
        SendAck(tx.sndNxt, now, track.nxt);
        SentBelow(old(out), old(tags), 0, edge);
        return SfNone, true;
      }
      if plan.available == 0 {
        if sflags == SfNone {
          return;
        }
        if sflags == SfImmediateAck || clock.tAck != 0 {
          SendAck(tx.sndNxt, now, track.nxt);
          SentBelow(old(out), old(tags), 0, edge);
        } else {
          clock := clock.(tAck := now);
        }
        return;
      }
      if useNagling && tx.sndNxt > tx.sndUna && plan.available < tx.mss {
        return;
      }
      if tx.unsent == [] {
        return;
      }
      var status := SendNext(plan.available, now);
      SentBelow(old(out), old(tags), old(track.nxt) + plan.available, edge);
      if status != Transmitted {
        closed := true;
        return;
      }
      again := true;
      if sflags == SfImmediateAck || sflags == SfDelayedAck {
        sflags' := SfNone;
      }
    }

    ghost predicate Idle(now: u32)
      reads `clock
    {
      TimeDiff(now, clock.lastsend) > clock.rxRto
    }

    /** Nagle's rule will hold back what `attempt_send` is called for. */
    ghost predicate Withheld(now: u32)
      reads `tx, `clock, sbuf
    {
      HeldBack(Rested(tx, Idle(now)), sbuf.dataLength, useNagling)
    }

    /** After a pause longer than the retransmission timeout, sending starts again from one segment. */
    method RestartIfIdle(now: u32)
      requires Ready()
      modifies `tx
      ensures Ready()
      ensures tx == Rested(old(tx), TimeDiff(now, clock.lastsend) > clock.rxRto)
    {
      hide Queued, AllGenuine, Buffered;
      if TimeDiff(now, clock.lastsend) > clock.rxRto {
        tx := tx.(cwnd := tx.mss);
      }
    }

    /** What became of the acknowledgement asked for, when the history was `sent` long. */
    ghost predicate Answered(sflags: SendFlags, now: u32, sent: nat, wasClosed: bool, tAck: u32, held: bool,
                             again: bool)
      reads `closed, `out, `clock
    {
      && (wasClosed ==> closed) && (again || sflags == SfDuplicateAck ==> |out| > sent)
      && (again && sflags != SfDuplicateAck ==> !held)
      && (sflags == SfImmediateAck && !wasClosed ==> (closed || |out| > sent <==> !held))
      && (sflags == SfDelayedAck && !wasClosed && now != 0 ==>
            (closed || |out| > sent || clock.tAck != 0 <==> !held || tAck != 0))
    }

    /** The loop of `attempt_send`. It always comes to an end. */
    method SendAll(sflags: SendFlags, now: u32)
      requires Ready()
      modifies `out, `tags, `clock, `tx, `track, `closed
      ensures Ready() && Sent(old(out), old(tags), old(SendEdge()))
      ensures SendsOn(old(tx), old(track), tx, track)
      ensures closed || Quiet()
      ensures Answered(sflags, now, old(|out|), old(closed), old(clock.tAck),
                       old(HeldBack(tx, sbuf.dataLength, useNagling)), false)
      ensures sflags != SfDuplicateAck && old(HeldBack(tx, sbuf.dataLength, useNagling)) ==> tx == old(tx)
    {
      hide Ready, Extends, HeldBack, SendPlan, SendsOn;
      ghost var edge, held := SendEdge(), HeldBack(tx, sbuf.dataLength, useNagling);
      FlightFacts();
      SentNothing(edge);
      var flags, again := sflags, true;
      SendsOnNothing(tx, track);
      while again
        invariant Ready() && Sent(old(out), old(tags), edge) && SendEdge() == edge && track.una == old(track.una)
        invariant SendsOn(old(tx), old(track), tx, track)
        invariant again || closed || Quiet()
        invariant if flags == sflags && again && out == old(out)
                  then clock == old(clock) && closed == old(closed) && tx == old(tx)
                  else && Answered(sflags, now, old(|out|), old(closed), old(clock.tAck), held, again)
                       && (again ==> flags == SfNone)
        invariant sflags != SfDuplicateAck && held ==> tx == old(tx)
        decreases |accepted| - track.nxt, if flags == SfDuplicateAck then 1 else 0, if again then 1 else 0
      {
        ghost var out1, tags1, edge1, tx1, track1 := out, tags, SendEdge(), tx, track;
        flags, again := SendTurn(flags, now);
        SendsOnTwice(old(tx), old(track), tx1, track1, tx, track);
        SendsOnEdge(tx1, track1, tx, track);
        SentAlso(old(out), old(tags), out1, tags1, edge1, edge);
        SentGrows(out1, tags1, edge1);
        FlightFacts();
      }
    }

    /**
     Sends what the windows allow, then the acknowledgement asked for. An immediate acknowledgement
     goes out, and a delayed one goes out or stays scheduled, exactly unless Nagle's rule holds a
     small segment back: that return comes before both.
     */
    method AttemptSend(sflags: SendFlags, now: u32)
      requires Ready()
      modifies `out, `tags, `clock, `tx, `track, `closed
      ensures Ready() && Sent(old(out), old(tags), old(SendEdge()))
      ensures track == old(track).(nxt := track.nxt, marks := track.marks)
              && Transmits(Rested(old(tx), old(Idle(now))), tx)
      ensures old(track.nxt) <= track.nxt <= old(SendEdge())
      ensures track.nxt > old(track.nxt) && tx.msslevel == old(tx).msslevel ==>
                track.nxt - track.una <= Min(tx.sndWnd, Allowance(tx.cwnd, tx.dupAcks, tx.mss))
      ensures if old(closed) then closed else closed || Quiet()
      ensures sflags == SfDuplicateAck ==> |out| > old(|out|)
      ensures sflags == SfImmediateAck && !old(closed) ==> (closed || |out| > old(|out|) <==> !old(Withheld(now)))
      ensures sflags == SfDelayedAck && !old(closed) && now != 0 ==>
                (closed || |out| > old(|out|) || clock.tAck != 0 <==> !old(Withheld(now)) || old(clock).tAck != 0)
      ensures sflags != SfDuplicateAck && old(Withheld(now)) ==> tx == Rested(old(tx), old(Idle(now)))
    {
      hide Ready, Extends, HeldBack, SendPlan, Allowance;
      RestartIfIdle(now);
      SendAll(sflags, now);
    }

    /** Transmits the segment at the head of the list: the oldest in flight again, or the first waiting. */
    method TransmitHead(now: u32) returns (status: Status)
      requires Ready() && (track.una < track.nxt || track.nxt < |accepted|)
      modifies `out, `tags, `clock, `tx, `track
      ensures Ready() && Sent(old(out), old(tags), if track.una < old(track.nxt) then old(track.nxt) else |accepted|)
      ensures track == old(track).(nxt := track.nxt, marks := track.marks)
      ensures Transmits(old(tx), tx) && SameRtt(old(clock), clock)
      ensures status == Transmitted ==> |out| > |old(out)| && out[|out| - 1].seqno == tx.sndUna
      ensures old(track.nxt) <= track.nxt
      ensures old(track.nxt) < track.nxt <==> status == Transmitted && track.una == old(track.nxt)
    {
      hide Queued, AllGenuine, Extends, Buffered;
      HeadInFlight(tx.slist, tx.unsent, track.marks, tx.nextId, iss, track.una, track.nxt, |accepted|);
      HeadWaiting(tx.slist, tx.unsent, track.marks, tx.nextId, iss, track.una, track.nxt, |accepted|);
      assert Find(tx.slist, tx.slist[0].id) == 0;
      status := Transmit(tx.slist[0].id, now, if track.una < track.nxt then track.nxt else |accepted|);
    }

    /** Takes `ackno` as the new left edge: the acknowledged bytes leave the buffer and the list. */
    method Advance(ackno: u32, sndWnd: u32, now: u32, ghost ack: nat) returns (nAcked: nat)
      requires Ready() && Separate()
      requires ackno == At(iss, ack) && track.una < ack <= track.nxt
      modifies `tx, `track, sbuf`readPosition, sbuf`dataLength
      ensures Ready()
      ensures nAcked == ack - old(track.una)
      ensures track == old(track).(una := ack, marks := track.marks) && tx.sndWnd == sndWnd
      ensures tx.sndUna == ackno && tx.recover == old(tx.recover) && tx.dupAcks == old(tx.dupAcks)
    {
      hide Tracks, AllGenuine;
      FlightFacts();
      ghost var una0 := track.una;
      ghost var contents := sbuf.Contents();
      tx, nAcked, track := AcceptAck(tx, ackno, sndWnd, now, ack, track, iss, |accepted|);
      sbuf.ConsumeReadData(nAcked);
      assert contents[nAcked..] == accepted[ack..];
    }

    /** Everything sent is acknowledged in recovery, yet the recovery point counts as ahead. */
    ghost predicate Astray()
      reads `tx, `track
    {
      tx.dupAcks >= 3 && track.una == track.nxt && !LargerOrEqual(tx.sndUna, tx.recover)
    }

    /**
     Congestion control on new data acknowledged; inside recovery the next hole is sent again.
     When there is no hole the code takes the first waiting segment for one, whatever the window
     says. It finds no byte to send exactly when none waits either: the list, or its head, is empty.
     */
    method OnNewAck(nAcked: nat, now: u32) returns (r: AckResult)
      requires Ready()
      modifies `out, `tags, `clock, `tx, `track, `closed
      ensures Ready() && Sent(old(out), old(tags), if old(Astray()) then |accepted| else old(track.nxt))
      ensures track == old(track).(nxt := track.nxt, marks := track.marks) && tx.sndWnd == old(tx.sndWnd)
      ensures SameRtt(old(clock), clock)
      ensures r == NoSegment <==> old(Stranded(tx, track, |accepted|))
      ensures r == NoSegment ==> tx == old(tx) && track == old(track) && out == old(out)
      ensures old(track.nxt) <= track.nxt && (old(track.nxt) < track.nxt <==> old(Astray()) && r == AckTaken)
      ensures (r == AckFailed ==> closed) && (closed ==> old(closed) || r == AckFailed)
      ensures old(tx).dupAcks < 3 ==> r == AckTaken && tx == Grow(old(tx)) && out == old(out)
      ensures old(tx).dupAcks >= 3 && LargerOrEqual(tx.sndUna, tx.recover) ==>
                r == AckTaken && tx == Deflate(old(tx)) && out == old(out)
      ensures old(tx).dupAcks >= 3 && !LargerOrEqual(tx.sndUna, tx.recover) ==>
                && tx.dupAcks == old(tx).dupAcks
                && (r == AckTaken ==> |out| > |old(out)| && out[|out| - 1].seqno == tx.sndUna)
      ensures old(tx).dupAcks >= 3 && !LargerOrEqual(tx.sndUna, tx.recover) && r == AckTaken
              && tx.msslevel == old(tx).msslevel ==>
                tx.cwnd == Sub32(Add32(old(tx).cwnd, if nAcked > tx.mss then tx.mss else 0), Min(nAcked, old(tx).cwnd))
    {
      hide Queued, AllGenuine, Extends, Buffered, Grow, Deflate;
      AllGenuineLength(out, tags, conv, iss, irs, accepted);
      SentNothing(if Astray() then |accepted| else track.nxt);
      r := AckTaken;
      if tx.dupAcks >= 3 {
        if LargerOrEqual(tx.sndUna, tx.recover) {
          tx := Deflate(tx);
        } else {
          HeadInFlight(tx.slist, tx.unsent, track.marks, tx.nextId, iss, track.una, track.nxt, |accepted|);
          HeadWaiting(tx.slist, tx.unsent, track.marks, tx.nextId, iss, track.una, track.nxt, |accepted|);
          if tx.slist == [] || tx.slist[0].len == 0 {
            return NoSegment;
          }
          var status := TransmitHead(now);
          if status != Transmitted {
            closed := true;
            return AckFailed;
          }
          tx := tx.(cwnd := Sub32(Add32(tx.cwnd, if nAcked > tx.mss then tx.mss else 0), Min(nAcked, tx.cwnd)));
        }
      } else {
        tx := Grow(tx);
      }
    }

    /** Congestion control on a duplicate acknowledgement; the third starts a fast retransmit. */
    method OnDuplicateAck(tsecr: u32, now: u32) returns (ok: bool)
      requires Ready() && track.una < track.nxt
      modifies `out, `tags, `clock, `tx, `track, `closed
      ensures Ready() && Sent(old(out), old(tags), old(track.nxt))
      ensures track.una == old(track.una) && track.nxt == old(track.nxt) && tx.sndWnd == old(tx.sndWnd)
      ensures tx.dupAcks == (old(tx).dupAcks as int + 1) % 0x100 && SameRtt(old(clock), clock) && (!ok ==> closed)
      ensures closed ==> old(closed) || !ok
      ensures ok && tx.dupAcks == 3
              && (LargerOrEqual(old(tx).sndUna, old(tx).recover) || tsecr == clock.lastAckedTs) ==>
                && |out| > |old(out)| && out[|out| - 1].seqno == tx.sndUna
                && tx.recover == tx.sndNxt && tx.fastRecovery
                && tx.ssthresh == Threshold(tx) && tx.cwnd == Add32(tx.ssthresh, 3 * tx.mss)
      ensures tx.dupAcks != 3 ==>
                && ok && out == old(out)
                && tx == old(tx).(dupAcks := tx.dupAcks, cwnd := tx.cwnd)
                && tx.cwnd == if tx.dupAcks > 3 && tx.fastRecovery then Add32(old(tx).cwnd, tx.mss) else old(tx).cwnd
    {
      hide Queued, AllGenuine, Extends, Buffered;
      AllGenuineLength(out, tags, conv, iss, irs, accepted);
      SentNothing(track.nxt);
      ok := true;
      tx := tx.(dupAcks := (tx.dupAcks as int + 1) % 0x100);
      if tx.dupAcks == 3 {
        if LargerOrEqual(tx.sndUna, tx.recover) || tsecr == clock.lastAckedTs {
          var status := TransmitHead(now);
          if status != Transmitted {
            closed := true;
            return false;
          }
          var ssthresh := Threshold(tx);
          tx := tx.(recover := tx.sndNxt, ssthresh := ssthresh, cwnd := Add32(ssthresh, 3 * tx.mss),
                    fastRecovery := true);
          track := track.(rec := track.nxt);
        }
      } else if tx.dupAcks > 3 {
        if tx.fastRecovery {
          tx := tx.(cwnd := Add32(tx.cwnd, tx.mss));
        }
      }
    }

    /**
     The segment acknowledges all that was sent, in recovery, and the recovery point counts as
     ahead of that.
     */
    predicate Stale(seg: Segment, now: u32)
      reads `tx
    {
      StaleAck(tx, seg.ack) && (seg.tsecr == 0 || TimeDiff(now, seg.tsecr) >= 0)
    }

    /**
     A segment is stale exactly if the recovery point lies 2^31 - 1 bytes or more behind, modulo
     2^32: never before that much has been sent.
     */
    lemma StaleDistance(seg: Segment, now: u32)
      requires Ready()
      ensures Stale(seg, now) <==>
                && tx.dupAcks >= 3 && seg.ack == tx.sndNxt && track.una < track.nxt
                && (seg.tsecr == 0 || TimeDiff(now, seg.tsecr) >= 0)
                && (track.nxt - track.rec) % WORD >= WINDOW
      ensures Stale(seg, now) ==> |accepted| + behind >= WINDOW
    {
      hide Queued, AllGenuine, Buffered;
      FlightFacts();
      PastRecovery(tx, track, iss, |accepted|);
    }

    lemma NewAckFacts(ackno: u32, ack: nat)
      requires Ready() && ackno == At(iss, ack) && track.una < ack <= track.nxt
      ensures ackno != tx.sndUna && (ackno == tx.sndNxt <==> ack == track.nxt)
    {
      FlightFacts();
      AtDistance(iss, ack, track.una);
      AtDistance(iss, track.nxt, ack);
    }

    /** Acknowledgement of new data: the round trip is measured, then the left edge moves. */
    method ProcessNewAck(seg: Segment, now: u32, ghost ack: nat) returns (r: AckResult)
      requires Ready() && Separate() && seg.ack == At(iss, ack)
      requires track.una < ack <= track.nxt
      modifies `out, `tags, `clock, `tx, `track, `closed, sbuf`readPosition, sbuf`dataLength
      ensures Ready() && Sent(old(out), old(tags), if old(Stale(seg, now)) then |accepted| else old(track.nxt))
      ensures old(track.nxt) <= track.nxt && (!old(Stale(seg, now)) ==> track.nxt == old(track.nxt))
      ensures r == NoSegment <==> old(Stale(seg, now)) && old(track.nxt) == |accepted|
      ensures r == AckFailed ==> closed || (seg.tsecr != 0 && TimeDiff(now, seg.tsecr) < 0)
      ensures closed ==> old(closed) || r == AckFailed
      ensures if seg.tsecr == 0 || TimeDiff(now, seg.tsecr) >= 0
              then track.una == ack && tx.sndWnd == Granted(seg.wnd, swndScale)
              else r == AckFailed && track == old(track) && tx == old(tx)
      ensures track.una == ack && seg.tsecr != 0 ==>
                && clock.lastAckedTs == seg.tsecr
                && Rtt(clock.rxSrtt, clock.rxRttvar, clock.rxRto)
                   == MeasureRtt(old(clock).rxSrtt, old(clock).rxRttvar, TimeDiff(now, seg.tsecr))
      ensures clock.lastrecv == old(clock).lastrecv
    {
      hide Ready, Extends, MeasureRtt, LargerOrEqual;
      FlightFacts();
      NewAckFacts(seg.ack, ack);
      SentNothing(if Stale(seg, now) then |accepted| else track.nxt);
      if seg.tsecr != 0 {
        var rtt := TimeDiff(now, seg.tsecr);
        if rtt < 0 {
          return AckFailed;
        }
        var m := MeasureRtt(clock.rxSrtt, clock.rxRttvar, rtt);
        clock := clock.(rxSrtt := m.srtt, rxRttvar := m.rttvar, rxRto := m.rto, lastAckedTs := seg.tsecr);
      }
      var nAcked := Advance(seg.ack, Granted(seg.wnd, swndScale), now, ack);
      r := OnNewAck(nAcked, now);
    }

    /** The position a segment acknowledges, taken at or after the left edge. */
    ghost function AckPosition(seg: Segment): nat
      reads `tx, `track
    {
      track.una + Sub32(seg.ack, tx.sndUna)
    }

    /** Near the window that position is the one meant, if it lies in what is in flight. */
    lemma AckPositionMeant(seg: Segment, ack: int)
      requires Ready() && seg.ack == At(iss, ack) && Near(ack, track.una) && Near(ack, track.nxt)
      ensures if track.una <= ack then AckPosition(seg) == ack else track.nxt < AckPosition(seg)
    {
      FlightFacts();
      AtMinus(iss, ack, track.una);
      var d := ack - track.una;
      ModUnique(d, if d < 0 then -1 else 0, if d < 0 then d + WORD else d);
    }

    /** The acknowledgement part of `process`, for every segment. */
    method ProcessAck(seg: Segment, now: u32) returns (r: AckResult, ghost ack: nat)
      requires Ready() && Separate()
      modifies `out, `tags, `clock, `tx, `track, `closed, sbuf`readPosition, sbuf`dataLength
      ensures ack == old(AckPosition(seg)) && seg.ack == At(iss, ack)
      ensures Ready() && Sent(old(out), old(tags), if old(Stale(seg, now)) then |accepted| else old(track.nxt))
      ensures old(track.nxt) <= track.nxt && (!old(Stale(seg, now)) ==> track.nxt == old(track.nxt))
      ensures r == NoSegment <==> old(Stale(seg, now)) && old(track.nxt) == |accepted|
      ensures r == AckFailed ==> closed || (seg.tsecr != 0 && TimeDiff(now, seg.tsecr) < 0)
      ensures closed ==> old(closed) || r == AckFailed
      ensures var timely := seg.tsecr == 0 || TimeDiff(now, seg.tsecr) >= 0;
              track.una == if old(track.una) < ack <= old(track.nxt) && timely then ack else old(track.una)
      ensures r == AckTaken ==> track.una == if old(track.una) < ack <= old(track.nxt) then ack else old(track.una)
      ensures tx.sndWnd == old(tx.sndWnd) || (track.una == ack && tx.sndWnd == Granted(seg.wnd, swndScale))
      ensures track.una != old(track.una) ==> tx.sndWnd == Granted(seg.wnd, swndScale)
      ensures track.una != old(track.una) && seg.tsecr != 0 ==>
                && clock.lastAckedTs == seg.tsecr && TimeDiff(now, seg.tsecr) >= 0
                && Rtt(clock.rxSrtt, clock.rxRttvar, clock.rxRto)
                   == MeasureRtt(old(clock).rxSrtt, old(clock).rxRttvar, TimeDiff(now, seg.tsecr))
      ensures ack == old(track.una) ==> tx.sndWnd == Granted(seg.wnd, swndScale)
      ensures clock.lastrecv == old(clock).lastrecv
      ensures old(track.nxt) < ack ==> r == AckTaken && tx == old(tx) && out == old(out)
      ensures ack == old(track.una) && seg.data != [] ==>
                r == AckTaken && tx == old(tx).(sndWnd := tx.sndWnd) && out == old(out)
      ensures ack == old(track.una) && seg.data == [] ==>
                tx.dupAcks == if ack == track.nxt then 0 else (old(tx).dupAcks as int + 1) % 0x100
    {
      hide Queued, AllGenuine, Extends, Buffered, MeasureRtt;
      FlightFacts();
      ack := AckPosition(seg);
      AckInFlight(tx, track, iss, |accepted|, seg.ack);
      SentNothing(if Stale(seg, now) then |accepted| else track.nxt);
      r := AckTaken;
      if Larger(seg.ack, tx.sndUna) && SmallerOrEqual(seg.ack, tx.sndNxt) {
        r := ProcessNewAck(seg, now, ack);
      } else if seg.ack == tx.sndUna {
        tx := tx.(sndWnd := Granted(seg.wnd, swndScale));
        if seg.data != [] {
        } else if tx.sndUna != tx.sndNxt {
          var ok := OnDuplicateAck(seg.tsecr, now);
          if !ok {
            r := AckFailed;
          }
        } else {
          tx := tx.(dupAcks := 0);
        }
      }
    }

    /** The retransmit timer has expired; it is armed only while a transmitted segment is outstanding. */
    method Timeout(now: u32)
      requires Ready() && tx.rtoBase != 0
      modifies `out, `tags, `clock, `tx, `track, `closed
      ensures Ready() && Sent(old(out), old(tags), old(track.nxt))
      ensures track.una == old(track.una) && track.nxt == old(track.nxt) && tx.sndWnd == old(tx.sndWnd)
      ensures closed == old(closed) && !closed ==>
                && |out| > |old(out)| && out[|out| - 1].seqno == tx.sndUna
                && tx.ssthresh == Threshold(tx) && tx.cwnd == tx.mss && tx.rtoBase == now && tx.recover == tx.sndNxt
                && clock.rxRto == Min(MAX_RTO, old(clock).rxRto * 2 % WORD)
                && tx.dupAcks == if old(tx).dupAcks >= 3 then 0 else old(tx).dupAcks
    {
      hide Queued, AllGenuine, Extends, Buffered;
      var status := TransmitHead(now);
      if status != Transmitted {
        closed := true;
        return;
      }
      HeadInFlight(tx.slist, tx.unsent, track.marks, tx.nextId, iss, track.una, track.nxt, |accepted|);
      tx := tx.(ssthresh := Threshold(tx), cwnd := tx.mss, rtoBase := now, recover := tx.sndNxt);
      track := track.(rec := track.nxt);
      clock := clock.(rxRto := Min(MAX_RTO, clock.rxRto * 2 % WORD));
      if tx.dupAcks >= 3 {
        tx := tx.(dupAcks := 0, fastRecovery := false);
      }
    }

    /** The rest of `notify_clock`: probe a closed window, send a delayed acknowledgement. */
    method SendTimedAcks(now: u32)
      requires Ready()
      modifies `out, `tags, `clock, `closed
      ensures Ready() && Sent(old(out), old(tags), 0)
      ensures var was := old(clock);
              var probe := tx.sndWnd == 0 && TimeDiff(Add32(was.lastsend, was.rxRto), now) <= 0;
              var dead := probe && TimeDiff(now, was.lastrecv) >= CLOSED_WINDOW_TIMEOUT;
              var late := was.tAck != 0 && TimeDiff(Add32(was.tAck, ackDelay), now) <= 0;
              && closed == (old(closed) || dead) && |out| == |old(out)| + (if !dead && (probe || late) then 1 else 0)
              && (!dead && probe ==> clock.lastsend == now && clock.rxRto == Min(MAX_RTO, was.rxRto * 2 % WORD))
              && (!dead ==> clock.tAck == 0 || (!late && clock.tAck == was.tAck))
              && (out != old(out) ==> out[|out| - 1].data == [])
    {
      hide Ready, Extends;
      FlightFacts();
      SentNothing(0);
      AtPlus(iss, track.nxt, -1);
      if tx.sndWnd == 0 && TimeDiff(Add32(clock.lastsend, clock.rxRto), now) <= 0 {
        if TimeDiff(now, clock.lastrecv) >= CLOSED_WINDOW_TIMEOUT {
          closed := true;
          return;
        }
        SendAck(Add32(tx.sndNxt, -1), now, track.nxt - 1);
        clock := clock.(lastsend := now, rxRto := Min(MAX_RTO, clock.rxRto * 2 % WORD));
      }
      if clock.tAck != 0 && TimeDiff(Add32(clock.tAck, ackDelay), now) <= 0 {
        ghost var out1, tags1 := out, tags;
        SendAck(tx.sndNxt, now, track.nxt);
        SentAlso(old(out), old(tags), out1, tags1, 0, 0);
      }
    }

    /** Timers: retransmission, probing a closed window, delayed acknowledgement. */
    method NotifyClock(now: u32)
      requires Ready()
      modifies `out, `tags, `clock, `tx, `track, `closed
      ensures Ready() && Sent(old(out), old(tags), old(track.nxt))
      ensures track.una == old(track.una) && track.nxt == old(track.nxt) && tx.sndWnd == old(tx.sndWnd)
      ensures old(closed) ==> out == old(out) && tx == old(tx)
      ensures closed || clock.tAck == 0 || TimeDiff(Add32(clock.tAck, ackDelay), now) > 0
      ensures !closed && old(tx).rtoBase != 0 && TimeDiff(Add32(old(tx).rtoBase, old(clock).rxRto), now) <= 0 ==>
                |out| > |old(out)| && tx.rtoBase == now && tx.cwnd == tx.mss && tx.recover == tx.sndNxt
    {
      hide Ready, Extends;
      FlightFacts();
      SentNothing(track.nxt);
      if closed {
        return;
      }
      if tx.rtoBase != 0 && TimeDiff(Add32(tx.rtoBase, clock.rxRto), now) <= 0 {
        Timeout(now);
        if closed {
          return;
        }
      }
      ghost var out1, tags1 := out, tags;
      SendTimedAcks(now);
      SentAlso(old(out), old(tags), out1, tags1, 0, track.nxt);
    }

    /** `pseudo_tcp_socket_notify_mtu`: only a packet size within the headers breaks the invariant. */
    method NotifyMtu(mtu: u16)
      requires Ready()
      modifies `tx
      ensures Ready() <==> closed || mtu > PACKET_OVERHEAD
      ensures tx == old(tx).(msslevel := tx.msslevel, mss := tx.mss, ssthresh := tx.ssthresh, cwnd := tx.cwnd)
      ensures if closed then tx == old(tx) else mtu > PACKET_OVERHEAD ==> tx.mss + PACKET_OVERHEAD == mtu
    {
      hide Queued, AllGenuine, Buffered;
      if !closed {
        tx := AdjustMtu(tx, mtu);
      }
    }

    /** Moves the end of the received data over `n` bytes already in the ring. */
    method Accept(n: nat, ghost stream: seq<byte>)
      requires rbuf.Valid() && n <= rbuf.WriteRemaining() && rx.rcvNxt == At(irs, Rcv())
      requires Holds(rbuf.Ring(), |delivered|, stream, |delivered|, Rcv() + n)
      modifies rbuf`dataLength, `rx
      ensures rbuf.Valid() && rbuf.Ring() == old(rbuf.Ring())
      ensures Rcv() == old(Rcv()) + n && rx.rcvNxt == At(irs, Rcv())
      ensures rx == old(rx).(rcvNxt := rx.rcvNxt, rcvWnd := Sub32(old(rx.rcvWnd), n))
      ensures Holds(rbuf.Ring(), |delivered|, stream, |delivered|, Rcv())
    {
      AtPlus(irs, Rcv(), n);
      rbuf.ConsumeWriteBuffer(n);
      rx := rx.(rcvNxt := Add32(rx.rcvNxt, n), rcvWnd := Sub32(rx.rcvWnd, n));
    }

    /** Between two steps of draining: the saved segments start beyond `from`, but maybe not beyond `Rcv()`. */
    ghost predicate Draining(from: nat, stream: seq<byte>)
      reads `rx, `delivered, `rpos, rbuf, rbuf.buffer
    {
      && rbuf.Valid() && rbuf.buffer.Length < WINDOW
      && rx.rcvNxt == At(irs, Rcv())
      && |delivered| <= from <= Rcv()
      && InPlace(rbuf.Ring(), delivered, rbuf.dataLength, stream, rx.rlist, rpos, irs, from)
    }

    /** Whether the first saved segment has been caught up with. */
    lemma HeadOrder(from: nat, stream: seq<byte>)
      requires Draining(from, stream) && rx.rlist != []
      ensures SmallerOrEqual(rx.rlist[0].seqno, rx.rcvNxt) <==> rpos[0] <= Rcv()
      ensures Larger(Add32(rx.rlist[0].seqno, rx.rlist[0].len), rx.rcvNxt) <==> rpos[0] + rx.rlist[0].len > Rcv()
      ensures rpos[0] + rx.rlist[0].len > Rcv() ==>
                Sub32(Add32(rx.rlist[0].seqno, rx.rlist[0].len), rx.rcvNxt) == rpos[0] + rx.rlist[0].len - Rcv()
    {
      var p, n := rpos[0], rx.rlist[0].len;
      assert Holds(rbuf.Ring(), |delivered|, stream, p, p + n);
      ComparisonsOrderPositions(irs, p, Rcv());
      AtPlus(irs, p, n);
      ComparisonsOrderPositions(irs, p + n, Rcv());
      if p + n > Rcv() {
        AtDistance(irs, p + n, Rcv());
      }
    }

    /** Accepts what the first saved segment adds, and drops it. */
    method DrainHead(ghost from: nat, ghost stream: seq<byte>) returns (recovered: bool)
      requires Draining(from, stream) && rx.rlist != [] && rpos[0] <= Rcv()
      modifies rbuf`dataLength, `rx, `rpos
      ensures Draining(from, stream)
      ensures rbuf.Ring() == old(rbuf.Ring())
      ensures Rcv() == Max(old(Rcv()), old(rpos[0] + rx.rlist[0].len))
      ensures recovered <==> Rcv() > old(Rcv())
      ensures rx == Incoming(old(rx.rlist)[1..], rx.rcvNxt, Sub32(old(rx.rcvWnd), Rcv() - old(Rcv())), old(rx.tsRecent))
      ensures rpos == old(rpos)[1..]
    {
      HeadOrder(from, stream);
      var data := rx.rlist[0];
      ghost var p := rpos[0];
      recovered := false;
      Sub32Zero(rx.rcvWnd);
      assert Holds(rbuf.Ring(), |delivered|, stream, p, p + data.len);
      SavedPop(rx.rlist, rpos, irs, rbuf.Ring(), |delivered|, stream, from);
      if Larger(Add32(data.seqno, data.len), rx.rcvNxt) {
        var nAdjust := Sub32(Add32(data.seqno, data.len), rx.rcvNxt);
        recovered := true;
        HoldsJoin(rbuf.Ring(), |delivered|, stream, |delivered|, Rcv(), p, p + data.len);
        Accept(nAdjust, stream);
      }
      rx := rx.(rlist := rx.rlist[1..]);
      rpos := rpos[1..];
    }

    /** Accepts every saved segment that the received data has caught up with. */
    method Drain(ghost from: nat, ghost stream: seq<byte>, ghost edge: nat) returns (recovered: bool)
      requires Draining(from, stream)
      modifies rbuf`dataLength, `rx, `rpos
      ensures RecvValid(stream)
      ensures old(Rcv()) <= Rcv() && (recovered <==> old(Rcv()) < Rcv())
      ensures rx.rcvWnd == Sub32(old(rx.rcvWnd), Rcv() - old(Rcv())) && rx.tsRecent == old(rx.tsRecent)
      ensures old(SavedWithin(rx.rlist, rpos, edge)) && old(Rcv()) <= edge ==>
                SavedWithin(rx.rlist, rpos, edge) && Rcv() <= edge
    {
      hide Saved, Holds;
      recovered := false;
      Sub32Zero(rx.rcvWnd);
      while rx.rlist != [] && SmallerOrEqual(rx.rlist[0].seqno, rx.rcvNxt)
        invariant Draining(from, stream)
        invariant old(Rcv()) <= Rcv() && (recovered <==> old(Rcv()) < Rcv())
        invariant rx.rcvWnd == Sub32(old(rx.rcvWnd), Rcv() - old(Rcv())) && rx.tsRecent == old(rx.tsRecent)
        invariant old(SavedWithin(rx.rlist, rpos, edge)) && old(Rcv()) <= edge ==>
                    SavedWithin(rx.rlist, rpos, edge) && Rcv() <= edge
        decreases |rx.rlist|
      {
        HeadOrder(from, stream);
        ghost var before := Rcv();
        ghost var wnd := rx.rcvWnd;
        var more := DrainHead(from, stream);
        Sub32Sub32(old(rx.rcvWnd), before - old(Rcv()), Rcv() - before);
        recovered := recovered || more;
      }
      Drained(from, stream);
    }

    lemma Drained(from: nat, stream: seq<byte>)
      requires Draining(from, stream)
      requires rx.rlist != [] ==> !SmallerOrEqual(rx.rlist[0].seqno, rx.rcvNxt)
      ensures RecvValid(stream)
    {
      if rx.rlist != [] {
        HeadOrder(from, stream);
      }
      SavedBeyond(rx.rlist, rpos, irs, rbuf.Ring(), |delivered|, stream, from, Rcv());
    }

    /** Remembers a segment that arrived ahead of its turn and is already in the ring. */
    method Save(seqno: u32, len: nat, ghost pos: nat, ghost stream: seq<byte>, ghost edge: nat)
      requires RecvValid(stream) && seqno == At(irs, pos) && len >= 1 && Rcv() < pos
      requires Holds(rbuf.Ring(), |delivered|, stream, pos, pos + len)
      modifies `rx, `rpos
      ensures RecvValid(stream)
      ensures rx == old(rx).(rlist := rx.rlist)
              && multiset(rx.rlist) == multiset(old(rx.rlist)) + multiset{RSegment(seqno, len)}
      ensures old(SavedWithin(rx.rlist, rpos, edge)) && pos + len <= edge ==> SavedWithin(rx.rlist, rpos, edge)
    {
      hide Saved, Holds;
      var rlist';
      rlist', rpos := Insert(rx.rlist, RSegment(seqno, len), rpos, pos, irs, rbuf.Ring(), |delivered|, stream, Rcv(),
                             edge);
      rx := rx.(rlist := rlist');
    }

    /** Puts payload in its place in the ring, in the free space. */
    method WriteAhead(data: seq<byte>, nOffset: nat, ghost pos: nat, ghost stream: seq<byte>)
      requires RecvValid(stream) && data != [] && pos == Rcv() + nOffset
      requires pos + |data| <= |delivered| + rbuf.buffer.Length
      requires pos + |data| <= |stream| && data == stream[pos..pos + |data|]
      modifies rbuf.buffer
      ensures RecvValid(stream)
      ensures Holds(rbuf.Ring(), |delivered|, stream, pos, pos + |data|)
    {
      hide Saved, Holds, Overlay;
      ghost var ring, origin := rbuf.Ring(), |delivered|;
      HoldsAfterWrite(ring, origin, stream, pos, |data|, origin, Rcv());
      SavedAfterWrite(rx.rlist, rpos, irs, ring, origin, stream, Rcv(), pos, |data|);
      var res := rbuf.WriteOffset(data, nOffset);
      assert res == |data| && data[..res] == data;
    }

    /** Stores payload that starts at or beyond the expected byte and fits the buffer: accepts or saves it. */
    method Store(seqno: u32, data: seq<byte>, ghost pos: nat, ghost stream: seq<byte>, ghost edge: nat)
      returns (recovered: bool)
      requires RecvValid(stream) && seqno == At(irs, pos) && data != []
      requires Rcv() <= pos && pos + |data| <= |delivered| + rbuf.buffer.Length
      requires pos + |data| <= |stream| && data == stream[pos..pos + |data|]
      modifies rbuf.buffer, rbuf`dataLength, `rx, `rpos
      ensures RecvValid(stream)
      ensures recovered <==> pos == old(Rcv()) && Rcv() > pos + |data|
      ensures pos > old(Rcv()) ==> multiset(rx.rlist) == multiset(old(rx.rlist)) + multiset{RSegment(seqno, |data|)}
      ensures if pos == old(Rcv()) then Rcv() >= pos + |data| else Rcv() == old(Rcv())
      ensures rx.rcvWnd == Sub32(old(rx.rcvWnd), Rcv() - old(Rcv())) && rx.tsRecent == old(rx.tsRecent)
      ensures old(SavedWithin(rx.rlist, rpos, edge)) && pos + |data| <= edge ==>
                SavedWithin(rx.rlist, rpos, edge) && Rcv() <= edge
    {
      hide Saved, Holds, SavedWithin;
      recovered := false;
      Sub32Zero(rx.rcvWnd);
      ComparisonsOrderPositions(irs, pos, Rcv());
      AtDistance(irs, pos, Rcv());
      WriteAhead(data, Sub32(seqno, rx.rcvNxt), pos, stream);
      ghost var start := Rcv();
      if seqno == rx.rcvNxt {
        HoldsJoin(rbuf.Ring(), |delivered|, stream, |delivered|, start, pos, pos + |data|);
        Accept(|data|, stream);
        ghost var mid := Rcv();
        recovered := Drain(start, stream, edge);
        Sub32Sub32(old(rx.rcvWnd), mid - start, Rcv() - mid);
      } else {
        Save(seqno, |data|, pos, stream, edge);
      }
    }

    /** The data part of `process`: cut the payload to the buffer, then store what is left. */
    method ProcessData(seqno: u32, data: seq<byte>, ghost pos: int, ghost stream: seq<byte>, ghost edge: nat)
      returns (recovered: bool)
      requires RecvValid(stream) && seqno == At(irs, pos) && |data| <= MAX_MSS && Near(pos, Rcv())
      requires data != [] ==> 0 <= pos && pos + |data| <= |stream| && data == stream[pos..pos + |data|]
      modifies rbuf.buffer, rbuf`dataLength, `rx, `rpos
      ensures RecvValid(stream)
      ensures recovered <==> Rcv() > Max(old(Rcv()), Min(pos + |data|, |delivered| + rbuf.buffer.Length))
      ensures pos <= old(Rcv()) ==> Rcv() >= Min(pos + |data|, |delivered| + rbuf.buffer.Length)
      ensures Rcv() >= old(Rcv()) && (Rcv() > old(Rcv()) ==> pos <= old(Rcv()) < pos + |data|)
      ensures rx.rcvWnd == Sub32(old(rx.rcvWnd), Rcv() - old(Rcv())) && rx.tsRecent == old(rx.tsRecent)
      ensures old(SavedWithin(rx.rlist, rpos, edge)) && old(Rcv()) <= edge && (data != [] ==> pos + |data| <= edge) ==>
                SavedWithin(rx.rlist, rpos, edge) && Rcv() <= edge
    {
      hide Trim;
      hide Saved, Holds, SavedWithin;
      Sub32Zero(rx.rcvWnd);
      var space := rbuf.WriteRemaining();
      TrimSlice(irs, pos, data, Rcv(), space, stream);
      var (start, kept) := Trim(seqno, data, rx.rcvNxt, space);
      recovered := false;
      if kept != [] {
        recovered := Store(start, kept, Max(pos, Rcv()), stream, edge);
      }
    }

    /** The sender keeps to the left of `limit`, the edge its peer has granted. */
    ghost predicate Obeys(limit: nat)
      reads `tx, `track, `out, `tags
    {
      PayloadWithin(out, tags, limit) && SendEdge() <= limit
    }

    /** Window discipline on both sides: what is promised can be stored, what is sent was promised. */
    ghost predicate Disciplined(limit: nat)
      reads `tx, `rx, `track, `delivered, `rpos, `out, `tags, rbuf
    {
      WindowValid() && Obeys(limit)
    }

    lemma DisciplinedFurther(limit: nat, limit': nat)
      requires Disciplined(limit) && limit <= limit'
      ensures Disciplined(limit')
    {
    }

    /** Sending keeps the discipline as long as it stays below the limit. */
    lemma SentDisciplined(out0: seq<Segment>, tags0: seq<Tag>, bound: nat, limit: nat)
      requires Sent(out0, tags0, bound) && bound <= limit && SendEdge() <= limit
      requires PayloadWithin(out0, tags0, limit) && PromisedWithin(out0, tags0, rwndScale, Edge())
      requires Edge() <= |delivered| + rbuf.buffer.Length && rbuf.buffer.Length <= Shl(0xFFFF, rwndScale)
      requires SavedWithin(rx.rlist, rpos, Edge())
      ensures Disciplined(limit)
    {
      var wnd := Advertised(rx.rcvWnd, rwndScale);
      AdvertisedWindow(rx.rcvWnd, rwndScale);
      ExtendsPayload(out0, tags0, out, tags, track.una, Rcv(), wnd, bound, limit);
      ExtendsPromised(out0, tags0, out, tags, track.una, Rcv(), wnd, bound, rwndScale, Edge());
    }

    /** `attempt_send` keeps the window discipline. */
    method SendDue(sflags: SendFlags, now: u32, ghost limit: nat)
      requires Ready()
      modifies `out, `tags, `clock, `tx, `track, `closed
      ensures Ready() && (closed || Quiet()) && track.una == old(track.una)
      ensures old(out) <= out && old(tags) <= tags && SentFrom(tags, |old(tags)|, track.una - 1, Rcv(), Rcv())
      ensures Answered(sflags, now, old(|out|), old(closed), old(clock.tAck), old(Withheld(now)), false)
      ensures sflags != SfDuplicateAck && old(Withheld(now)) ==> HeldBack(tx, sbuf.dataLength, useNagling)
      ensures old(Disciplined(limit)) ==> Disciplined(limit)
    {
      hide Ready, Extends, PayloadWithin, PromisedWithin, SavedWithin, HeldBack;
      ghost var edge := SendEdge();
      AttemptSend(sflags, now);
      SentGrows(old(out), old(tags), edge);
      if old(Disciplined(limit)) {
        SentDisciplined(old(out), old(tags), edge, limit);
      }
    }

    /** Every position the code compares with the segment's lies within half the sequence space. */
    ghost predicate Live(t: Tag)
      reads `track, `delivered, rbuf
    {
      Near(t.pos, Rcv()) && Near(t.ack, track.una) && Near(t.ack, track.nxt)
    }

    /** The conditions under which `process` keeps the window discipline. */
    ghost predicate WithinWindows(seg: Segment, t: Tag, limit: nat)
      reads `rx, `delivered, rbuf
    {
      && (seg.data != [] ==> t.pos + |seg.data| <= Edge())
      && t.ack + Granted(seg.wnd, swndScale) <= limit
    }

    /** The payload covers this sequence number. */
    predicate Covers(seg: Segment, last: u32) {
      SmallerOrEqual(seg.seqno, last) && Smaller(last, Add32(seg.seqno, |seg.data|))
    }

    /** The timestamp of a segment that covers the last acknowledgement sent is echoed from now on. */
    method RecordArrival(seg: Segment, now: u32)
      requires Ready()
      modifies `clock, `rx
      ensures Ready() && clock == old(clock).(lastrecv := now)
      ensures rx == old(rx).(tsRecent := if Covers(seg, clock.tsLastack) then seg.tsval else old(rx).tsRecent)
    {
      hide Tracks, AllGenuine, Buffered;
      clock := clock.(lastrecv := now);
      if Covers(seg, clock.tsLastack) {
        rx := rx.(tsRecent := seg.tsval);
      }
    }

    /** The first part of `process`: clock, timestamps, acknowledgement. */
    method ProcessHeader(seg: Segment, now: u32, ghost t: Tag, ghost limit: nat) returns (r: AckResult)
      requires Ready() && Separate() && seg.ack == At(iss, t.ack) && Live(t)
      modifies `out, `tags, `clock, `tx, `track, `closed, `rx, sbuf`readPosition, sbuf`dataLength
      ensures Ready() && clock.lastrecv == now
      ensures rx == old(rx).(tsRecent := if Covers(seg, old(clock).tsLastack) then seg.tsval else old(rx).tsRecent)
      ensures r == NoSegment <==> old(Stale(seg, now)) && old(track.nxt) == |accepted|
      ensures r == AckFailed ==> closed || (seg.tsecr != 0 && TimeDiff(now, seg.tsecr) < 0)
      ensures closed ==> old(closed) || r == AckFailed
      ensures r == AckTaken ==> track.una == if old(track.una) < t.ack <= old(track.nxt) then t.ack else old(track.una)
      ensures track.una == old(track.una) || (track.una == t.ack && old(track.una) < t.ack)
      ensures old(out) <= out && old(tags) <= tags && SentFrom(tags, |old(tags)|, old(track.una) - 1, old(Rcv()), Rcv())
      ensures old(Disciplined(limit)) && old(WithinWindows(seg, t, limit)) && !old(Stale(seg, now)) ==>
                Disciplined(limit)
    {
      hide Ready, Extends, PayloadWithin, PromisedWithin, SavedWithin, StaleAck, At;
      RecordArrival(seg, now);
      AckPositionMeant(seg, t.ack);
      ghost var ack;
      r, ack := ProcessAck(seg, now);
      SentGrows(old(out), old(tags), if old(Stale(seg, now)) then |accepted| else old(track.nxt));
      if old(Disciplined(limit)) && old(WithinWindows(seg, t, limit)) && !old(Stale(seg, now)) {
        SentDisciplined(old(out), old(tags), old(track.nxt), limit);
      }
    }

    /** Storing payload leaves the sending side alone, and the window's right edge where it was. */
    method StorePayload(seg: Segment, ghost t: Tag, ghost stream: seq<byte>, ghost limit: nat) returns (recovered: bool)
      requires Separate() && Ready() && RecvValid(stream)
      requires Genuine(seg, t, irs, iss, stream) && Near(t.pos, Rcv())
      modifies `rx, `rpos, rbuf`dataLength, rbuf.buffer
      ensures Ready() && RecvValid(stream)
      ensures Rcv() >= old(Rcv()) && (t.pos > old(Rcv()) ==> Rcv() == old(Rcv()))
      ensures recovered <==> Rcv() > Max(old(Rcv()), Min(t.pos + |seg.data|, |delivered| + rbuf.buffer.Length))
      ensures t.pos <= old(Rcv()) ==> Rcv() >= Min(t.pos + |seg.data|, |delivered| + rbuf.buffer.Length)
      ensures old(Disciplined(limit)) && (seg.data != [] ==> t.pos + |seg.data| <= old(Edge())) ==>
                Disciplined(limit) && Edge() == old(Edge())
    {
      hide PayloadWithin, PromisedWithin, SavedWithin, InPlace, AllGenuine, Tracks, RingOf;
      recovered := ProcessData(seg.seqno, seg.data, t.pos, stream, Edge());
    }

    /** Within half the sequence space a segment is in sequence iff its number is the expected one. */
    lemma InSequence(seg: Segment, t: Tag, stream: seq<byte>)
      requires RecvValid(stream) && Genuine(seg, t, irs, iss, stream) && Near(t.pos, Rcv())
      ensures seg.seqno == rx.rcvNxt <==> t.pos == Rcv()
    {
      hide InPlace;
      ComparisonsOrderPositions(irs, t.pos, Rcv());
    }

    /** The last packet sent since there were `n` acknowledges all that has been received. */
    ghost predicate Acknowledges(n: nat)
      reads `tags, `delivered, rbuf
    {
      |tags| > n && tags[|tags| - 1].ack == Rcv()
    }

    /**
     The second part of `process`, if there is no FIN: store the payload, then send what is due. An acknowledgement
     is sent for payload out of sequence; one that completes a gap, or is asked for at once, is
     sent exactly unless Nagle's rule holds a small segment back, and so is a delayed one sent or
     scheduled unless it was scheduled before.
     */
    method ProcessPayload(seg: Segment, now: u32, ghost t: Tag, ghost stream: seq<byte>, ghost limit: nat)
      returns (ghost recovered: bool)
      requires Separate() && Ready() && RecvValid(stream)
      requires Genuine(seg, t, irs, iss, stream) && Near(t.pos, Rcv())
      requires !CountsAsFin(seg)
      modifies `out, `tags, `clock, `tx, `track, `closed, `rx, `rpos, rbuf`dataLength, rbuf.buffer
      ensures Ready() && RecvValid(stream) && (closed || Quiet())
      ensures track.una == old(track.una)
      ensures t.pos <= old(Rcv()) ==> Rcv() >= Min(t.pos + |seg.data|, |delivered| + rbuf.buffer.Length)
      ensures recovered <==> Rcv() > Max(old(Rcv()), Min(t.pos + |seg.data|, |delivered| + rbuf.buffer.Length))
      ensures old(out) <= out && old(tags) <= tags && SentFrom(tags, |old(tags)|, old(track.una) - 1, old(Rcv()), Rcv())
      ensures t.pos != old(Rcv()) && !recovered ==> |out| > |old(out)|
      ensures !old(closed) && (recovered || (t.pos == old(Rcv()) && seg.data != [] && ackDelay == 0)) ==>
                (closed || |out| > |old(out)| <==> !old(Withheld(now)))
      ensures !old(closed) && now != 0 && !recovered && t.pos == old(Rcv()) && seg.data != [] && ackDelay != 0 ==>
                (closed || |out| > |old(out)| || clock.tAck != 0 <==> !old(Withheld(now)) || old(clock).tAck != 0)
      ensures !closed && !Acknowledges(|old(tags)|)
              && (|| recovered || t.pos != old(Rcv())
                  || (seg.data != [] && (ackDelay == 0 || (now != 0 && clock.tAck == 0)))) ==>
                HeldBack(tx, sbuf.dataLength, useNagling)
      ensures Rcv() >= old(Rcv()) && (t.pos > old(Rcv()) ==> Rcv() == old(Rcv()))
      ensures old(Disciplined(limit)) && (seg.data != [] ==> t.pos + |seg.data| <= old(Edge())) ==>
                Disciplined(limit) && Edge() == old(Edge())
    {
      hide Extends, Disciplined, InPlace, Ready, RingOf, Genuine, At, HeldBack, SendPlan;
      InSequence(seg, t, stream);
      var sflags := SfNone;
      if seg.seqno != rx.rcvNxt {
        sflags := SfDuplicateAck;
      } else if seg.data != [] {
        sflags := if ackDelay == 0 then SfImmediateAck else SfDelayedAck;
      }
      FlightFacts();
      var completes := StorePayload(seg, t, stream, limit);
      if completes {
        sflags := SfImmediateAck;
      }
      recovered := completes;
      ghost var n := |tags|;
      SendDue(sflags, now, limit);
      FlightFacts();
      assert |tags| > n ==> Acknowledges(n);
    }

    /**
     The test of `process` for a FIN whose turn has come, while none has come: `rcv_fin` is still
     zero, and zero is also a sequence number.
     */
    predicate CountsAsFin(seg: Segment)
      reads `rx
    {
      supportFinAck && EndsAtZero(rx.rcvNxt, |seg.data|)
    }

    /** Exactly if the length of the payload, added to what was received, reaches a multiple of 2^32. */
    lemma CountsAsFinExact(seg: Segment)
      requires Ready()
      ensures CountsAsFin(seg) <==> supportFinAck && (irs + Rcv()) % WORD != 0 && (irs + Rcv() + |seg.data|) % WORD == 0
      ensures CountsAsFin(seg) ==> irs + Rcv() + |seg.data| >= WORD
    {
      hide Tracks, AllGenuine, Buffered;
      AtPlus(irs, Rcv(), |seg.data|);
    }

    /** What the code then does: it stores the payload, and steps over one number too many. */
    method TakeForFin(seg: Segment, ghost t: Tag, ghost stream: seq<byte>)
      requires Separate() && Ready() && RecvValid(stream) && CountsAsFin(seg)
      requires Genuine(seg, t, irs, iss, stream) && Near(t.pos, Rcv())
      modifies `rx, `rpos, rbuf`dataLength, rbuf.buffer
      ensures rbuf.Valid() && rx.rcvNxt == At(irs, Rcv() + 1)
      ensures InPlace(rbuf.Ring(), delivered, rbuf.dataLength, stream, rx.rlist, rpos, irs, Rcv())
      ensures t.pos <= old(Rcv()) ==> Rcv() >= Min(t.pos + |seg.data|, |delivered| + rbuf.buffer.Length)
    {
      hide InPlace, Tracks, AllGenuine, Genuine, RingOf, At;
      var recovered := StorePayload(seg, t, stream, 0);
      AtPlus(irs, Rcv(), 1);
      rx := rx.(rcvNxt := Add32(rx.rcvNxt, 1));
    }

    /** So the byte whose turn it is gets lost: the user will read what comes after it in its place. */
    method SkipByte(seqno: u32, data: seq<byte>)
      requires rbuf.Valid() && rx.rcvNxt == At(irs, Rcv() + 1) && seqno == At(irs, Rcv())
      requires 1 < |data| <= MAX_MSS && |data| - 1 <= rbuf.WriteRemaining()
      modifies rbuf`dataLength, rbuf.buffer
      ensures rbuf.Valid() && rbuf.Contents() == old(rbuf.Contents()) + data[1..]
    {
      hide Trim, At, RingOf;
      TrimSkips(irs, Rcv(), data, rbuf.WriteRemaining());
      ghost var ring := rbuf.Ring();
      var (start, kept) := Trim(seqno, data, rx.rcvNxt, rbuf.WriteRemaining());
      var res := rbuf.WriteOffset(kept, Sub32(start, rx.rcvNxt));
      assert kept[..res] == kept;
      rbuf.ConsumeWriteBuffer(res);
      assert rbuf.Contents() == ring[..|ring| - rbuf.WriteRemaining() - res] + kept;
    }

    /** `process` during data transfer, for a segment of the peer's stream, up to one that counts as a FIN. */
    method Process(seg: Segment, now: u32, ghost t: Tag, ghost stream: seq<byte>, ghost limit: nat) returns (r: Outcome)
      requires Separate() && Ready() && RecvValid(stream)
      requires Genuine(seg, t, irs, iss, stream) && Live(t)
      modifies `out, `tags, `clock, `tx, `track, `closed, `rx, `rpos
      modifies sbuf`readPosition, sbuf`dataLength, rbuf`dataLength, rbuf.buffer
      ensures Ready() && RecvValid(stream)
      ensures r == Processed ==> track.una == if old(track.una) < t.ack <= old(track.nxt) then t.ack else old(track.una)
      ensures track.una == old(track.una) || (track.una == t.ack && old(track.una) < t.ack)
      ensures Rcv() >= old(Rcv())
      ensures seg.conv != conv || old(closed) ==> r == Dropped && tx == old(tx) && rx == old(rx) && out == old(out)
      ensures r == Processed && t.pos > old(Rcv()) ==> |out| > |old(out)|
      ensures r == Processed && !closed && !Acknowledges(|old(tags)|)
              && (|| t.pos != old(Rcv()) || (seg.data != [] && (ackDelay == 0 || (now != 0 && clock.tAck == 0)))
                  || Rcv() > Max(old(Rcv()), Min(t.pos + |seg.data|, |delivered| + rbuf.buffer.Length))) ==>
                HeldBack(tx, sbuf.dataLength, useNagling)
      ensures old(out) <= out && old(tags) <= tags && SentFrom(tags, |old(tags)|, old(track.una) - 1, old(Rcv()), Rcv())
      ensures r == Processed && t.pos <= old(Rcv()) ==>
                Rcv() >= Min(t.pos + |seg.data|, |delivered| + rbuf.buffer.Length)
      ensures if r == Processed then closed || Quiet() else Rcv() == old(Rcv())
      ensures r == TakenForFin ==> seg.conv == conv && !old(closed) && old(CountsAsFin(seg))
      ensures old(CountsAsFin(seg)) ==> r != Processed
      ensures r == Stuck <==> seg.conv == conv && !old(closed) && old(Stale(seg, now)) && old(track.nxt) == |accepted|
      ensures r == Dropped ==> seg.conv != conv || closed || (seg.tsecr != 0 && TimeDiff(now, seg.tsecr) < 0)
      ensures old(Disciplined(limit)) && old(WithinWindows(seg, t, limit)) && (old(closed) || !old(Stale(seg, now))) ==>
                Disciplined(limit) && Edge() == old(Edge())
    {
      hide Ready, InPlace, At, Obeys, WindowValid, SendPlan, HeldBack, Stale, EndsAtZero;
      if seg.conv != conv || closed {
        return Dropped;
      }
      var ack := ProcessHeader(seg, now, t, limit);
      r := match ack case AckTaken => Processed case AckFailed => Dropped case NoSegment => Stuck;
      if r == Processed && CountsAsFin(seg) {
        return TakenForFin;
      }
      if r == Processed {
        ghost var tags1, lo: int := tags, track.una - 1;
        ghost var recovered := ProcessPayload(seg, now, t, stream, limit);
        SentFromTwice(tags1, tags, |old(tags)|, old(track.una) - 1, lo, old(Rcv()), old(Rcv()), Rcv());
      }
    }

    /** Enough space is free, or the window wrapped. */
    predicate Reopens(wnd: u32, mss: u32)
      requires rbuf.Valid()
      reads rbuf
    {
      var free := rbuf.WriteRemaining();
      free < wnd || free - wnd >= Min(rbuf.buffer.Length / 2, mss)
    }

    /** Widens the window once enough space is free; a window that was shut is announced at once. */
    method Reopen(now: u32, ghost stream: seq<byte>, ghost limit: nat)
      requires Ready() && RecvValid(stream)
      modifies `out, `tags, `clock, `tx, `track, `closed, `rx
      ensures Ready() && RecvValid(stream) && track.una == old(track.una) && (old(closed) ==> closed)
      ensures var wnd := old(rx).rcvWnd;
              var reopens := Reopens(wnd, old(tx).mss);
              && rx == old(rx).(rcvWnd := if reopens then rbuf.WriteRemaining() else wnd)
              && (out != old(out) ==> reopens && wnd == 0 && !old(closed))
              && (reopens && wnd == 0 && !old(closed) ==> (closed || |out| > |old(out)| <==> !old(Withheld(now))))
      ensures old(out) <= out && old(tags) <= tags && SentFrom(tags, |old(tags)|, track.una - 1, Rcv(), Rcv())
      ensures old(Disciplined(limit)) ==> Disciplined(limit) && Edge() >= old(Edge())
    {
      hide AllGenuine, Tracks, InPlace, PayloadWithin, PromisedWithin, SavedWithin, Extends, Buffered, RingOf, At,
           HeldBack;
      var available := rbuf.WriteRemaining();
      if Reopens(rx.rcvWnd, tx.mss) {
        var wasClosed := rx.rcvWnd == 0;
        ghost var edge := Edge();
        rx := rx.(rcvWnd := available);
        if old(Disciplined(limit)) {
          WiderEdge(edge, limit);
        }
        if wasClosed && !closed {
          SendDue(SfImmediateAck, now, limit);
        }
      }
    }

    /** Returns buffered bytes to the user and reopens the window once enough space is free. */
    method Recv(len: nat, now: u32, ghost stream: seq<byte>, ghost limit: nat) returns (r: RecvResult)
      requires Separate() && Ready() && RecvValid(stream)
      modifies `out, `tags, `clock, `tx, `track, `closed, `rx, `delivered, rbuf`readPosition, rbuf`dataLength
      ensures Ready() && RecvValid(stream)
      ensures r == RecvWouldBlock <==> len > 0 && old(rbuf.dataLength) == 0 && !old(closed)
      ensures r == RecvWouldBlock ==> delivered == old(delivered)
      ensures r.Received? ==>
                var n := if !supportFinAck && old(closed) then 0 else Min(len, old(rbuf.dataLength));
                r.data == old(rbuf.Contents())[..n]
      ensures r.Received? ==> delivered == old(delivered) + r.data
      ensures Rcv() == old(Rcv()) && track.una == old(track.una) && (old(closed) ==> closed)
      ensures len > 0 && r.Received? && (supportFinAck || !old(closed)) ==>
                rx == old(rx).(rcvWnd := if Reopens(old(rx).rcvWnd, old(tx).mss) then rbuf.WriteRemaining()
                                         else old(rx).rcvWnd)
      ensures old(out) <= out && old(tags) <= tags && SentFrom(tags, |old(tags)|, track.una - 1, Rcv(), Rcv())
      ensures old(Disciplined(limit)) ==> Disciplined(limit) && Edge() >= old(Edge())
    {
      hide AllGenuine, Tracks, InPlace, Obeys, PromisedWithin, SavedWithin, Buffered, RingOf, At;
      if (!supportFinAck && closed) || len == 0 {
        return Received([]);
      }
      var bytes := ReadOut(len, stream);
      if bytes == [] && !closed {
        return RecvWouldBlock;
      }
      r := Received(bytes);
      Reopen(now, stream, limit);
    }

    lemma WiderEdge(edge: nat, limit: nat)
      requires Obeys(limit) && edge <= Edge() <= |delivered| + rbuf.buffer.Length
      requires rbuf.buffer.Length <= Shl(0xFFFF, rwndScale)
      requires SavedWithin(rx.rlist, rpos, edge) && PromisedWithin(out, tags, rwndScale, edge)
      ensures Disciplined(limit)
    {
    }

    /** Reading from the ring: saved segments keep their offset from the end. */
    method ReadOut(len: nat, ghost stream: seq<byte>) returns (bytes: seq<byte>)
      requires RecvValid(stream)
      modifies `delivered, rbuf`readPosition, rbuf`dataLength
      ensures RecvValid(stream)
      ensures bytes == old(rbuf.Contents())[..Min(len, old(rbuf.dataLength))]
      ensures delivered == old(delivered) + bytes && Rcv() == old(Rcv())
    {
      hide InPlace, Rotate, RingOf, At;
      ghost var ring, n := rbuf.Ring(), rbuf.dataLength;
      bytes := rbuf.Read(len);
      ReadStep(ring, delivered, n, stream, rx.rlist, rpos, irs, bytes);
      delivered := delivered + bytes;
    }

    /** Accepts bytes from the user and sends what the windows allow. */
    method Send(data: seq<byte>, now: u32, ghost limit: nat) returns (r: SendResult)
      requires Separate() && Ready()
      modifies `out, `tags, `clock, `tx, `track, `closed, `accepted, sbuf`dataLength, sbuf.buffer
      ensures Ready()
      ensures r == NotConnected <==> old(closed)
      ensures r == SendWouldBlock <==> !old(closed) && old(sbuf.WriteRemaining()) == 0
      ensures r.Accepted? ==> r.n == Min(|data|, old(sbuf.WriteRemaining())) && accepted == old(accepted) + data[..r.n]
      ensures !r.Accepted? ==> accepted == old(accepted)
      ensures r.Accepted? ==> closed || Quiet()
      ensures old(out) <= out && old(tags) <= tags && SentFrom(tags, |old(tags)|, old(track.una) - 1, old(Rcv()), Rcv())
      ensures track.una == old(track.una)
      ensures old(Disciplined(limit)) ==> Disciplined(limit)
    {
      hide Ready, Extends, PayloadWithin, PromisedWithin, SavedWithin;
      if closed {
        return NotConnected;
      }
      FlightFacts();
      if sbuf.WriteRemaining() == 0 {
        return SendWouldBlock;
      }
      var written := Queue(data);
      SendDue(SfNone, now, limit);
      r := Accepted(written);
    }

    /** The clock keeps the window discipline too. */
    method Tick(now: u32, ghost limit: nat)
      requires Ready()
      modifies `out, `tags, `clock, `tx, `track, `closed
      ensures Ready()
      ensures old(out) <= out && old(tags) <= tags && SentFrom(tags, |old(tags)|, old(track.una) - 1, old(Rcv()), Rcv())
      ensures track.una == old(track.una)
      ensures old(Disciplined(limit)) ==> Disciplined(limit)
    {
      hide Ready, Extends, PayloadWithin, PromisedWithin, SavedWithin;
      ghost var nxt := track.nxt;
      NotifyClock(now);
      SentGrows(old(out), old(tags), nxt);
      if old(Disciplined(limit)) {
        SentDisciplined(old(out), old(tags), nxt, limit);
      }
    }
  }
}
