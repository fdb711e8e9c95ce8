/**
 The sender's fields on values: what each step of `transmit`, `queue` and `process` does to the
 segment lists, and the numbers that decide how much may be sent.
 */
module Sender {
  import opened Wrap32
  import opened Fifo
  import opened SendQueue
  import opened Reassembly
  import opened Journal

  const PACKET_MAXIMUMS: seq<u16> := [65535, 32000, 17914, 8166, 4352, 2002, 1492, 1006, 508, 296, 0]
  const LAST_LEVEL := 9
  const MIN_RTO := 1000
  const MAX_RTO := 60000

  datatype Outgoing = Outgoing(
    slist: seq<SSegment>, unsent: seq<SegmentId>, nextId: nat,
    sndNxt: u32, sndUna: u32, sndWnd: u32,
    mss: u32, msslevel: nat, rtoBase: u32,
    ssthresh: u32, cwnd: u32, dupAcks: byte, recover: u32, fastRecovery: bool)

  /** Stream positions behind `snd_una`, `snd_nxt` and `recover`, and the bounds of the segments. */
  datatype Track = Track(una: nat, nxt: nat, rec: int, marks: seq<nat>)

  /** The sender's fields describe the stretch [una, end) of its stream, sent up to `nxt`. */
  ghost predicate Tracks(tx: Outgoing, tr: Track, iss: u32, end: nat) {
    && Queued(tx.slist, tx.unsent, tr.marks, tx.nextId, iss, tr.una, tr.nxt, end)
    && tx.sndUna == At(iss, tr.una) && tx.sndNxt == At(iss, tr.nxt)
    && 0 < tx.mss <= MAX_MSS && tx.msslevel <= LAST_LEVEL && tx.ssthresh > 0
    && (tx.rtoBase != 0 ==> tr.una < tr.nxt)
    && tx.recover == At(iss, tr.rec) && tr.rec <= tr.nxt
  }

  /**
   Whether what was sent counts as past the recovery point: exactly while the two are less than
   2^31 - 1 bytes apart, modulo 2^32.
   */
  lemma PastRecovery(tx: Outgoing, tr: Track, iss: u32, end: nat)
    requires Tracks(tx, tr, iss, end)
    ensures LargerOrEqual(tx.sndNxt, tx.recover) <==> (tr.nxt - tr.rec) % WORD < WINDOW
    ensures tr.nxt - tr.rec < WINDOW ==> LargerOrEqual(tx.sndNxt, tx.recover)
  {
    hide Queued;
    AtMinus(iss, tr.nxt, tr.rec);
  }

  /** Everything sent is acknowledged and nothing waits, yet the recovery point counts as ahead. */
  ghost predicate Stranded(tx: Outgoing, tr: Track, end: nat) {
    tx.dupAcks >= 3 && tr.una == tr.nxt == end && !LargerOrEqual(tx.sndUna, tx.recover)
  }

  /** An acknowledgement of all that was sent, in recovery, with the recovery point counting as ahead of it. */
  predicate StaleAck(tx: Outgoing, ack: u32) {
    tx.dupAcks >= 3 && ack == tx.sndNxt && ack != tx.sndUna && !LargerOrEqual(ack, tx.recover)
  }

  /**
   One byte in flight 2^31 - 1 bytes after the last loss. Three duplicates start no recovery, as
   the left edge does not count as past the recovery point either, and then the byte is acknowledged.
   */
  lemma StrandedExample(sndWnd: u32, mss: u32, cwnd: u32, now: u32)
    requires 0 < mss <= MAX_MSS
    ensures var tx := Outgoing([SSegment(0, WINDOW, 1, 1, 0)], [], 1, WINDOW + 1, WINDOW, sndWnd, mss, 0, now,
                               1, cwnd, 3, 0, false);
            && Tracks(tx, Track(WINDOW, WINDOW + 1, 0, [WINDOW, WINDOW + 1]), 0, WINDOW + 1)
            && !LargerOrEqual(tx.sndUna, tx.recover) && StaleAck(tx, At(0, WINDOW + 1))
  {
  }

  /** The same with another byte waiting, for which the peer has no room. */
  lemma AstrayExample(mss: u32, cwnd: u32, now: u32)
    requires 0 < mss <= MAX_MSS
    ensures var tx := Outgoing([SSegment(0, WINDOW, 1, 1, 0), SSegment(1, WINDOW + 1, 1, 0, 0)], [1], 2,
                               WINDOW + 1, WINDOW, 1, mss, 0, now, 1, cwnd, 3, 0, false);
            && Tracks(tx, Track(WINDOW, WINDOW + 1, 0, [WINDOW, WINDOW + 1, WINDOW + 2]), 0, WINDOW + 2)
            && !LargerOrEqual(tx.sndUna, tx.recover) && StaleAck(tx, At(0, WINDOW + 1))
            && Sendable(tx, 1) && WINDOW + tx.sndWnd < WINDOW + 2
  {
  }

  /** The segment size may change at any time. */
  lemma TracksAnySize(tx: Outgoing, tx': Outgoing, tr: Track, iss: u32, end: nat)
    requires Tracks(tx, tr, iss, end) && tx' == tx.(mss := tx'.mss, msslevel := tx'.msslevel, cwnd := tx'.cwnd)
    requires 0 < tx'.mss <= MAX_MSS && tx'.msslevel <= LAST_LEVEL
    ensures Tracks(tx', tr, iss, end)
  {
    hide Queued;
  }

  /** Segment `i` may be transmitted: the head in flight, or the first one waiting. */
  predicate Sendable(tx: Outgoing, i: nat) {
    && i < |tx.slist| && tx.slist[i].len >= 1
    && (tx.slist[i].xmit == 0 ==> tx.unsent != [] && i == SentCount(tx.slist, tx.unsent))
    && (tx.slist[i].xmit != 0 ==> i == 0)
  }

  /** Where the bytes of such a segment lie in the stream. */
  lemma SendablePosition(tx: Outgoing, i: nat, tr: Track, iss: u32, end: nat)
    requires Tracks(tx, tr, iss, end) && Sendable(tx, i)
    ensures var pos := if tx.slist[i].xmit == 0 then tr.nxt else tr.una;
            && tx.slist[i].seqno == At(iss, pos) && pos + tx.slist[i].len <= end && tr.una <= tr.nxt
            && (tx.slist[i].xmit != 0 ==> pos + tx.slist[i].len <= tr.nxt)
  {
    hide Queued;
    HeadInFlight(tx.slist, tx.unsent, tr.marks, tx.nextId, iss, tr.una, tr.nxt, end);
    HeadWaiting(tx.slist, tx.unsent, tr.marks, tx.nextId, iss, tr.una, tr.nxt, end);
  }

  /** Transmitting changes the lists, the timer and, with a smaller MSS, the congestion window. */
  ghost predicate Transmits(tx: Outgoing, tx': Outgoing) {
    && tx' == tx.(slist := tx'.slist, unsent := tx'.unsent, nextId := tx'.nextId, sndNxt := tx'.sndNxt,
                  rtoBase := tx'.rtoBase, mss := tx'.mss, msslevel := tx'.msslevel, cwnd := tx'.cwnd)
    && tx.msslevel <= tx'.msslevel && (tx'.msslevel == tx.msslevel ==> tx'.mss == tx.mss && tx'.cwnd == tx.cwnd)
  }

  /** The sender after a pause longer than the retransmission timeout: it starts again from one segment. */
  function Rested(tx: Outgoing, idle: bool): Outgoing {
    if idle then tx.(cwnd := tx.mss) else tx
  }

  /** The lists with segment `i` cut after `n` bytes; a waiting rest waits behind its front. */
  function Halved(tx: Outgoing, i: nat, n: nat): Outgoing
    requires Sendable(tx, i) && n <= tx.slist[i].len
  {
    tx.(slist := Split(tx.slist, i, n, tx.nextId), nextId := tx.nextId + 1,
        unsent := if tx.slist[i].xmit == 0 then [tx.unsent[0], tx.nextId] + tx.unsent[1..] else tx.unsent)
  }

  lemma HalvedWaiting(tx: Outgoing, i: nat, n: nat, tr: Track, iss: u32, end: nat)
    requires Tracks(tx, tr, iss, end) && Sendable(tx, i) && 0 < n < tx.slist[i].len && tx.slist[i].xmit == 0
    ensures i < |tr.marks| && Tracks(Halved(tx, i, n), tr.(marks := SplitMarks(tr.marks, i, n)), iss, end)
    ensures Sendable(Halved(tx, i, n), i) && Halved(tx, i, n).slist[i] == tx.slist[i].(len := n)
  {
    hide Queued;
    HeadWaiting(tx.slist, tx.unsent, tr.marks, tx.nextId, iss, tr.una, tr.nxt, end);
    MarksLength(tx.slist, tx.unsent, tr.marks, tx.nextId, iss, tr.una, tr.nxt, end);
    SplitWaiting(tx.slist, tx.unsent, tr.marks, tx.nextId, iss, tr.una, tr.nxt, end, n);
  }

  lemma HalvedInFlight(tx: Outgoing, i: nat, n: nat, tr: Track, iss: u32, end: nat)
    requires Tracks(tx, tr, iss, end) && Sendable(tx, i) && 0 < n < tx.slist[i].len && tx.slist[i].xmit != 0
    ensures i < |tr.marks| && Tracks(Halved(tx, i, n), tr.(marks := SplitMarks(tr.marks, i, n)), iss, end)
    ensures Sendable(Halved(tx, i, n), i) && Halved(tx, i, n).slist[i] == tx.slist[i].(len := n)
  {
    hide Queued;
    HeadInFlight(tx.slist, tx.unsent, tr.marks, tx.nextId, iss, tr.una, tr.nxt, end);
    MarksLength(tx.slist, tx.unsent, tr.marks, tx.nextId, iss, tr.una, tr.nxt, end);
    SplitInFlight(tx.slist, tx.unsent, tr.marks, tx.nextId, iss, tr.una, tr.nxt, end, n);
  }

  /** Breaks segment `i` in two, in both lists where it appears. */
  method SplitSegment(tx: Outgoing, i: nat, n: nat, ghost tr: Track, ghost iss: u32, ghost end: nat)
    returns (tx': Outgoing, ghost tr': Track)
    requires Tracks(tx, tr, iss, end) && Sendable(tx, i) && 0 < n < tx.slist[i].len
    ensures Tracks(tx', tr', iss, end) && Sendable(tx', i)
    ensures tx'.slist[i] == tx.slist[i].(len := n)
    ensures tx' == tx.(slist := tx'.slist, unsent := tx'.unsent, nextId := tx'.nextId)
    ensures tr' == tr.(marks := tr'.marks)
  {
    hide Tracks, Split, SplitMarks;
    if tx.slist[i].xmit == 0 {
      HalvedWaiting(tx, i, n, tr, iss, end);
    } else {
      HalvedInFlight(tx, i, n, tr, iss, end);
    }
    tx', tr' := Halved(tx, i, n), tr.(marks := SplitMarks(tr.marks, i, n));
  }

  /** The first waiting segment, cut to `available` bytes. */
  method CutNext(tx: Outgoing, available: nat, ghost tr: Track, ghost iss: u32, ghost end: nat)
    returns (tx': Outgoing, ghost tr': Track)
    requires Tracks(tx, tr, iss, end) && tx.unsent != [] && 0 < available && tr.nxt + available <= end
    ensures Tracks(tx', tr', iss, end) && tx'.unsent != []
    ensures var k := Find(tx'.slist, tx'.unsent[0]);
            Sendable(tx', k) && tx'.slist[k].xmit == 0 && tx'.slist[k].len <= available
    ensures tx' == tx.(slist := tx'.slist, unsent := tx'.unsent, nextId := tx'.nextId)
    ensures tr' == tr.(marks := tr'.marks)
  {
    hide Queued;
    HeadWaiting(tx.slist, tx.unsent, tr.marks, tx.nextId, iss, tr.una, tr.nxt, end);
    tx', tr' := tx, tr;
    var k := Find(tx.slist, tx.unsent[0]);
    if tx.slist[k].len > available {
      tx', tr' := SplitSegment(tx, k, available, tr, iss, end);
      HeadWaiting(tx'.slist, tx'.unsent, tr'.marks, tx'.nextId, iss, tr'.una, tr'.nxt, end);
    }
  }

  /** The end of `transmit`: a first transmission leaves `unsent` and moves `sndNxt`. */
  method CountTransmission(tx: Outgoing, i: nat, now: u32, ghost tr: Track, ghost iss: u32, ghost end: nat)
    returns (tx': Outgoing, ghost tr': Track)
    requires Tracks(tx, tr, iss, end) && Sendable(tx, i)
    ensures Tracks(tx', tr', iss, end) && tr'.una < tr'.nxt
    ensures tr' == tr.(nxt := tr.nxt + if tx.slist[i].xmit == 0 then tx.slist[i].len else 0)
    ensures tx'.slist == CountXmit(tx.slist, i)
    ensures tx'.unsent == (if tx.slist[i].xmit == 0 then tx.unsent[1..] else tx.unsent)
    ensures tx'.rtoBase == if tx.rtoBase == 0 then now else tx.rtoBase
    ensures tx' == tx.(slist := tx'.slist, unsent := tx'.unsent, sndNxt := tx'.sndNxt, rtoBase := tx'.rtoBase)
  {
    hide Queued;
    var segment := tx.slist[i];
    HeadInFlight(tx.slist, tx.unsent, tr.marks, tx.nextId, iss, tr.una, tr.nxt, end);
    HeadWaiting(tx.slist, tx.unsent, tr.marks, tx.nextId, iss, tr.una, tr.nxt, end);
    tx', tr' := tx, tr;
    if segment.xmit == 0 {
      FirstTransmission(tx.slist, tx.unsent, tr.marks, tx.nextId, iss, tr.una, tr.nxt, end);
      assert tx.unsent[0] == segment.id;
      AtPlus(iss, tr.nxt, segment.len);
      tx' := tx'.(unsent := tx.unsent[1..], sndNxt := Add32(tx.sndNxt, segment.len));
      tr' := tr.(nxt := tr.nxt + segment.len);
    } else {
      Retransmission(tx.slist, tx.unsent, tr.marks, tx.nextId, iss, tr.una, tr.nxt, end);
    }
    tx' := tx'.(slist := CountXmit(tx.slist, i));
    if tx.rtoBase == 0 {
      tx' := tx'.(rtoBase := now);
    }
  }

  /** What `transmit` does to the lists after `n` bytes of segment `i` have been written. */
  method RecordTransmission(tx: Outgoing, i: nat, n: nat, now: u32, ghost tr: Track, ghost iss: u32, ghost end: nat)
    returns (tx': Outgoing, ghost tr': Track)
    requires Tracks(tx, tr, iss, end) && Sendable(tx, i) && 0 < n <= tx.slist[i].len
    ensures Tracks(tx', tr', iss, end)
    ensures tr' == tr.(nxt := tr'.nxt, marks := tr'.marks) && tr'.una < tr'.nxt
    ensures tr'.nxt == tr.nxt + if tx.slist[i].xmit == 0 then n else 0
    ensures tx' == tx.(slist := tx'.slist, unsent := tx'.unsent, nextId := tx'.nextId, sndNxt := tx'.sndNxt,
                       rtoBase := tx'.rtoBase)
    ensures tx'.rtoBase == if tx.rtoBase == 0 then now else tx.rtoBase
  {
    hide Tracks;
    tx', tr' := tx, tr;
    if n < tx.slist[i].len {
      tx', tr' := SplitSegment(tx, i, n, tr, iss, end);
    }
    tx', tr' := CountTransmission(tx', i, now, tr', iss, end);
  }

  /** The list part of `queue`: `len` more bytes in the last waiting segment, or in a new one. */
  method EnqueueSegment(tx: Outgoing, buffered: nat, len: nat, ghost tr: Track, ghost iss: u32)
    returns (tx': Outgoing, ghost tr': Track)
    requires Tracks(tx, tr, iss, tr.una + buffered)
    ensures Tracks(tx', tr', iss, tr.una + buffered + len)
    ensures tx' == tx.(slist := tx'.slist, unsent := tx'.unsent, nextId := tx'.nextId)
    ensures tr' == tr.(marks := tr'.marks)
  {
    hide Queued;
    ghost var end := tr.una + buffered;
    AtPlus(iss, tr.una, buffered);
    EnqueueQueued(tx.slist, tx.unsent, tr.marks, tx.nextId, iss, tr.una, tr.nxt, end, len);
    MarksLength(tx.slist, tx.unsent, tr.marks, tx.nextId, iss, tr.una, tr.nxt, end);
    var slist' := Enqueue(tx.slist, tx.nextId, Add32(tx.sndUna, buffered), len, 0);
    tr' := tr.(marks := EnqueueMarks(tx.slist, tr.marks, end, len));
    if |slist'| > |tx.slist| {
      tx' := tx.(slist := slist', unsent := tx.unsent + [tx.nextId], nextId := tx.nextId + 1);
    } else {
      tx' := tx.(slist := slist');
    }
  }

  /** Frees acknowledged segments; the list never runs out before the bytes do. */
  method FreeAcknowledged(slist: seq<SSegment>, n: nat, ghost unsent: seq<SegmentId>, ghost marks: seq<nat>,
                          ghost nextId: nat, ghost iss: u32, ghost una: nat, ghost nxt: nat, ghost end: nat)
    returns (slist': seq<SSegment>, ghost marks': seq<nat>)
    requires Queued(slist, unsent, marks, nextId, iss, una, nxt, end) && n <= nxt - una
    ensures slist' == Acknowledge(slist, n)
    ensures Queued(slist', unsent, marks', nextId, iss, una + n, nxt, end)
  {
    hide Queued;
    slist', marks' := slist, marks;
    var nFree := n;
    while nFree > 0
      invariant 0 <= nFree <= n
      invariant Queued(slist', unsent, marks', nextId, iss, una + n - nFree, nxt, end)
      invariant Acknowledge(slist', nFree) == Acknowledge(slist, n)
      decreases |slist'| + nFree
    {
      HeadInFlight(slist', unsent, marks', nextId, iss, una + n - nFree, nxt, end);
      MarksLength(slist', unsent, marks', nextId, iss, una + n - nFree, nxt, end);
      assert slist' != [];
      var data := slist'[0];
      if nFree < data.len {
        TrimHeadQueued(slist', unsent, marks', nextId, iss, una + n - nFree, nxt, end, nFree);
        marks' := marks'[0 := marks'[0] + nFree];
        slist' := slist'[0 := data.(seqno := Add32(data.seqno, nFree), len := data.len - nFree)];
        nFree := 0;
      } else {
        PopQueued(slist', unsent, marks', nextId, iss, una + n - nFree, nxt, end);
        marks' := marks'[1..];
        slist' := slist'[1..];
        nFree := nFree - data.len;
      }
    }
  }

  /** The send fields once the acknowledgement `ackno`, at position `ack`, has been accepted. */
  method AcceptAck(tx: Outgoing, ackno: u32, sndWnd: u32, now: u32, ghost ack: nat, ghost tr: Track, ghost iss: u32,
                   ghost end: nat)
    returns (tx': Outgoing, nAcked: nat, ghost tr': Track)
    requires Tracks(tx, tr, iss, end) && ackno == At(iss, ack)
    requires tr.una < ack <= tr.nxt && ack - tr.una < WORD
    ensures Tracks(tx', tr', iss, end)
    ensures nAcked == ack - tr.una
    ensures tr' == tr.(una := ack, marks := tr'.marks)
    ensures tx'.slist == Acknowledge(tx.slist, nAcked) && tx'.unsent == tx.unsent
    ensures tx' == tx.(slist := tx'.slist, sndUna := ackno, sndWnd := sndWnd,
                       rtoBase := if ackno == tx.sndNxt then 0 else now)
  {
    hide Queued;
    AtDistance(iss, ack, tr.una);
    nAcked := Sub32(ackno, tx.sndUna);
    var slist', marks' := FreeAcknowledged(tx.slist, nAcked, tx.unsent, tr.marks, tx.nextId, iss, tr.una, tr.nxt, end);
    tr' := tr.(una := ack, marks := marks');
    tx' := tx.(slist := slist', sndUna := ackno, sndWnd := sndWnd,
               rtoBase := if ackno == tx.sndNxt then 0 else now);
  }

  /** Congestion avoidance: about one segment per window, and a byte at least. */
  function Increment(mss: u32, cwnd: u32): (n: u32)
    requires cwnd > 0
    ensures 1 <= n && (0 < mss <= cwnd ==> n <= mss)
  {
    var square := mss * mss % WORD;
    assert 0 < mss <= cwnd ==> square / cwnd <= mss by {
      if 0 < mss <= cwnd {
        QuotientBound(mss, cwnd, square);
      }
    }
    Max(1, square / cwnd)
  }

  lemma QuotientBound(mss: nat, cwnd: nat, square: nat)
    requires 0 < mss <= cwnd && square <= mss * mss
    ensures square / cwnd <= mss
  {
    var q := square / cwnd;
    assert q * cwnd <= square <= mss * mss <= mss * cwnd;
    assert (mss - q) * cwnd >= 0;
  }

  /** Congestion window after new data was acknowledged outside recovery: it opens by at most one segment. */
  function Grow(tx: Outgoing): (tx': Outgoing)
    requires tx.ssthresh > 0
    ensures tx' == tx.(cwnd := tx'.cwnd, dupAcks := 0)
    ensures 0 < tx.mss <= tx.cwnd && tx.cwnd + tx.mss < WORD ==> tx.cwnd < tx'.cwnd <= tx.cwnd + tx.mss
  {
    tx.(dupAcks := 0,
        cwnd := Add32(tx.cwnd, if tx.cwnd < tx.ssthresh then tx.mss else Increment(tx.mss, tx.cwnd)))
  }

  /** Leaving recovery: the window falls back to the threshold at most. */
  function Deflate(tx: Outgoing): (tx': Outgoing)
    ensures tx' == tx.(cwnd := tx'.cwnd, fastRecovery := false, dupAcks := 0) && tx'.cwnd <= tx.ssthresh
  {
    var inFlight := Sub32(tx.sndNxt, tx.sndUna);
    tx.(cwnd := Min(tx.ssthresh, Add32(Max(inFlight, tx.mss), tx.mss)), fastRecovery := false, dupAcks := 0)
  }

  /** Slow-start threshold after a loss: half of what is in flight, but two segments at least. */
  function Threshold(tx: Outgoing): (t: u32)
    requires 0 < tx.mss <= MAX_MSS
    ensures t >= 2 * tx.mss && 2 * t + 1 >= Sub32(tx.sndNxt, tx.sndUna)
  {
    Max(Sub32(tx.sndNxt, tx.sndUna) / 2, 2 * tx.mss)
  }

  /** The segment size at a level of the table. */
  function MssAt(level: nat): (mss: u32)
    requires level <= LAST_LEVEL
    ensures 0 < mss <= MAX_MSS
  {
    PACKET_MAXIMUMS[level] - PACKET_OVERHEAD
  }

  /** The loop of `adjustMTU`: the first level of the table that the path can carry, or the last. */
  method LevelFor(mtu: u16) returns (level: nat)
    ensures level <= LAST_LEVEL
    ensures forall l :: 0 <= l < level ==> PACKET_MAXIMUMS[l] > mtu
    ensures level < LAST_LEVEL ==> PACKET_MAXIMUMS[level] <= mtu
  {
    level := 0;
    while PACKET_MAXIMUMS[level + 1] > 0
      invariant level <= LAST_LEVEL
      invariant forall l :: 0 <= l < level ==> PACKET_MAXIMUMS[l] > mtu
      decreases LAST_LEVEL - level
    {
      if PACKET_MAXIMUMS[level] <= mtu {
        break;
      }
      level := level + 1;
    }
  }

  /**
   `adjustMTU`: the segment size for the advised packet size, with minimums for the windows. The
   size is usable exactly if the packet is longer than the headers; otherwise the difference wraps.
   */
  method AdjustMtu(tx: Outgoing, mtu: u16) returns (tx': Outgoing)
    ensures tx' == tx.(msslevel := tx'.msslevel, mss := tx'.mss, ssthresh := tx'.ssthresh, cwnd := tx'.cwnd)
    ensures 0 < tx'.mss <= MAX_MSS <==> mtu > PACKET_OVERHEAD
    ensures mtu > PACKET_OVERHEAD ==>
              tx'.mss + PACKET_OVERHEAD == mtu && tx'.mss <= tx'.cwnd && 2 * tx'.mss <= tx'.ssthresh
    ensures tx.ssthresh <= tx'.ssthresh && tx.cwnd <= tx'.cwnd
    ensures tx.mss == tx'.mss <= tx.cwnd && 2 * tx.mss <= tx.ssthresh ==> tx' == tx.(msslevel := tx'.msslevel)
    ensures tx'.msslevel <= LAST_LEVEL && (mtu >= PACKET_MAXIMUMS[LAST_LEVEL] ==> PACKET_MAXIMUMS[tx'.msslevel] <= mtu)
    ensures tx'.msslevel > 0 ==> PACKET_MAXIMUMS[tx'.msslevel - 1] > mtu
  {
    var level := LevelFor(mtu);
    var mss := Sub32(mtu, PACKET_OVERHEAD);
    tx' := tx.(msslevel := level, mss := mss, ssthresh := Max(tx.ssthresh, 2 * mss % WORD), cwnd := Max(tx.cwnd, mss));
  }

  /** The inner loop of `transmit`: step down the table of packet sizes until the MSS shrinks `n`. */
  method LowerMss(tx: Outgoing, n: nat) returns (fits: bool, tx': Outgoing, n': nat)
    requires 0 < n && 0 < tx.mss <= MAX_MSS && tx.msslevel <= LAST_LEVEL
    ensures tx' == tx.(mss := tx'.mss, msslevel := tx'.msslevel, cwnd := tx'.cwnd)
    ensures 0 < tx'.mss <= MAX_MSS && tx.msslevel <= tx'.msslevel <= LAST_LEVEL && Transmits(tx, tx')
    ensures fits ==> tx.msslevel < tx'.msslevel && n' == tx'.mss == MssAt(tx'.msslevel) < n && tx'.cwnd == 2 * n'
    ensures !fits ==> tx'.msslevel == LAST_LEVEL
    ensures forall l :: tx.msslevel < l <= tx'.msslevel && (fits ==> l < tx'.msslevel) ==> MssAt(l) >= n
  {
    tx' := tx;
    while true
      invariant tx' == tx.(mss := tx'.mss, msslevel := tx'.msslevel, cwnd := tx'.cwnd)
      invariant 0 < tx'.mss <= MAX_MSS && tx.msslevel <= tx'.msslevel <= LAST_LEVEL && Transmits(tx, tx')
      invariant forall l :: tx.msslevel < l <= tx'.msslevel ==> MssAt(l) >= n
      decreases LAST_LEVEL - tx'.msslevel
    {
      if PACKET_MAXIMUMS[tx'.msslevel + 1] == 0 {
        return false, tx', 0;
      }
      var mss := MssAt(tx'.msslevel + 1);
      tx' := tx'.(msslevel := tx'.msslevel + 1, mss := mss, cwnd := 2 * mss);
      if mss < n {
        return true, tx', mss;
      }
    }
  }

  // Round-trip estimation.

  datatype Rtt = Rtt(srtt: u32, rttvar: u32, rto: u32)

  function Bound(lower: u32, middle: u32, upper: u32): u32 {
    Min(Max(lower, middle), upper)
  }

  /** The smoothed round-trip time. */
  function Smoothed(srtt: u32, rtt: nat): (r: u32)
    requires rtt < HALF
    ensures srtt != 0 && 7 * srtt < WORD ==> Min(srtt, rtt) <= r <= Max(srtt, rtt)
  {
    if srtt == 0 then rtt else (7 * srtt % WORD + rtt) / 8
  }

  function MeasureRtt(srtt: u32, rttvar: u32, rtt: nat): (r: Rtt)
    requires rtt < HALF
    ensures MIN_RTO <= r.rto <= MAX_RTO
    ensures srtt != 0 && 7 * srtt < WORD ==> Min(srtt, rtt) <= r.srtt <= Max(srtt, rtt)
  {
    var diff := if rtt < srtt then srtt - rtt else rtt - srtt;
    var var' := if srtt == 0 then rtt / 2 else (3 * rttvar % WORD + diff) / 4;
    var srtt' := Smoothed(srtt, rtt);
    Rtt(srtt', var', Bound(MIN_RTO, Add32(srtt', Max(1, 4 * var' % WORD)), MAX_RTO))
  }

  // What `attempt_send` may send in one turn.

  datatype Plan = Plan(window: u32, available: nat)

  /** The congestion window with the limited-transmit allowance. */
  function Allowance(cwnd: u32, dupAcks: byte, mss: u32): u32 {
    if dupAcks == 1 || dupAcks == 2 then Add32(cwnd, dupAcks as int * mss) else cwnd
  }

  function SendPlan(sndWnd: u32, cwnd: u32, dupAcks: byte, mss: u32, inFlight: u32, buffered: nat): (p: Plan)
    ensures p.window <= sndWnd && p.window <= Allowance(cwnd, dupAcks, mss)
    ensures p.available > 0 ==>
              inFlight + p.available <= p.window && inFlight + p.available <= buffered && p.available <= mss
    ensures p.available > 0 ==> p.available == Min(buffered - inFlight, mss) || 4 * p.available >= p.window
    ensures p.available == 0 && inFlight < buffered && mss > 0 ==>
              inFlight >= p.window || (p.window - inFlight) * 4 % WORD < p.window
  {
    var window := Min(sndWnd, Allowance(cwnd, dupAcks, mss));
    var useable := if inFlight < window then window - inFlight else 0;
    var ready := if buffered < inFlight then 0 else Min(buffered - inFlight, mss);
    if ready > useable then
      if useable * 4 % WORD < window then Plan(window, 0) else Plan(window, useable)
    else Plan(window, ready)
  }

  /** Nagle's rule: less than a full segment may be sent, and something is in flight. */
  predicate HeldBack(tx: Outgoing, buffered: nat, useNagling: bool) {
    var plan := SendPlan(tx.sndWnd, tx.cwnd, tx.dupAcks, tx.mss, Sub32(tx.sndNxt, tx.sndUna), buffered);
    useNagling && tx.sndNxt > tx.sndUna && 0 < plan.available < tx.mss
  }

  /** One byte in flight and one waiting: Nagle's rule holds the second back. */
  lemma HeldBackExample(now: u32)
    ensures var tx := Outgoing([SSegment(0, 0, 1, 1, 0), SSegment(1, 1, 1, 0, 0)], [1], 2, 1, 0, 1000, 100, 9, now,
                               1000, 200, 0, 0, false);
            Tracks(tx, Track(0, 1, 0, [0, 1, 2]), 0, 2) && HeldBack(tx, 2, true)
  {
  }

  /**
   Sending moves the right end of what is in flight, within the peer's window and, unless the MSS
   shrinks, within the congestion window.
   */
  ghost predicate SendsOn(tx: Outgoing, tr: Track, tx': Outgoing, tr': Track) {
    && tr' == tr.(nxt := tr'.nxt, marks := tr'.marks) && Transmits(tx, tx')
    && tr.nxt <= tr'.nxt <= Max(tr.nxt, tr.una + tx.sndWnd)
    && (tr'.nxt > tr.nxt && tx'.msslevel == tx.msslevel ==>
          tr'.nxt - tr.una <= Min(tx'.sndWnd, Allowance(tx'.cwnd, tx'.dupAcks, tx'.mss)))
  }

  lemma SendsOnTwice(tx: Outgoing, tr: Track, tx1: Outgoing, tr1: Track, tx2: Outgoing, tr2: Track)
    requires SendsOn(tx, tr, tx1, tr1) && SendsOn(tx1, tr1, tx2, tr2)
    ensures SendsOn(tx, tr, tx2, tr2)
  {
  }

  lemma SendsOnNothing(tx: Outgoing, tr: Track)
    ensures SendsOn(tx, tr, tx, tr)
  {
  }

  lemma SendsOnEdge(tx: Outgoing, tr: Track, tx': Outgoing, tr': Track)
    requires SendsOn(tx, tr, tx', tr')
    ensures tr'.una == tr.una && tr.nxt <= tr'.nxt && tx'.sndWnd == tx.sndWnd
    ensures Max(tr'.nxt, tr'.una + tx'.sndWnd) == Max(tr.nxt, tr.una + tx.sndWnd)
  {
  }

  /** Whatever its number, an acknowledgement counts as new exactly if it lies in what is in flight. */
  lemma AckInFlight(tx: Outgoing, tr: Track, iss: u32, end: nat, ackno: u32)
    requires Tracks(tx, tr, iss, end) && end - tr.una < WINDOW
    ensures tr.una <= tr.nxt <= end
    ensures var d := Sub32(ackno, tx.sndUna);
            && ackno == At(iss, tr.una + d)
            && (Larger(ackno, tx.sndUna) && SmallerOrEqual(ackno, tx.sndNxt) <==> 0 < d <= tr.nxt - tr.una)
            && (ackno == tx.sndUna <==> d == 0)
  {
    hide Queued, Larger, SmallerOrEqual;
    HeadInFlight(tx.slist, tx.unsent, tr.marks, tx.nextId, iss, tr.una, tr.nxt, end);
    var d := Sub32(ackno, tx.sndUna);
    AddSub(ackno, tx.sndUna);
    AtPlus(iss, tr.una, d);
    AtMinus(iss, tr.nxt, tr.una + d);
    BetweenExact(ackno, tx.sndUna, tx.sndNxt, tr.nxt - tr.una);
  }

  lemma AddSub(a: u32, b: u32)
    ensures Add32(b, Sub32(a, b)) == a && (Sub32(a, b) == 0 <==> a == b)
  {
  }

  lemma BetweenExact(a: u32, lo: u32, hi: u32, n: nat)
    requires n < WINDOW && Sub32(hi, a) == (n - Sub32(a, lo)) % WORD
    ensures Larger(a, lo) && SmallerOrEqual(a, hi) <==> 0 < Sub32(a, lo) <= n
  {
    var d: int := Sub32(a, lo);
    ModUnique(n - d, if n < d then -1 else 0, if n < d then n - d + WORD else n - d);
    if d == 0 {
      ModUnique(-1, -1, WORD - 1);
    } else {
      ModUnique(d - 1, 0, d - 1);
    }
  }
}
