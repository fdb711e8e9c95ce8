/**
 Two pseudo-TCP sockets joined by a network that may lose, duplicate, delay and reorder packets.

 A packet may arrive any number of times and in any order, as long as it is not too old: no more
 than `MAX_AGE` bytes have been accepted at either end since it was sent. That is a lifetime the
 wrapped sequence numbers can bear.
 */
module PseudoTcpLink {
  import opened Wrap32
  import opened Fifo
  import opened Header
  import opened Journal
  import opened Sender
  import opened PseudoTcp

  const MAX_AGE := WINDOW - MAX_SEND_BUFFER - 2

  /** How much the sending and the receiving user had handed over when a packet left. */
  datatype Stamp = Stamp(own: nat, peer: nat)

  datatype Side = Left | Right

  datatype Event =
    | UserSends(side: Side, data: seq<byte>, now: u32)
    | UserReads(side: Side, len: nat, now: u32)
    | ClockTicks(side: Side, now: u32)
    | MtuAdvised(side: Side, mtu: u16)
    | PacketArrives(side: Side, index: nat, now: u32)

  /** Positions of every packet sent against its stamp. */
  ghost predicate History(tags: seq<Tag>, stamps: seq<Stamp>, own: nat, peer: nat, rcv: nat) {
    && |stamps| == |tags|
    && forall k {:trigger tags[k]} {:trigger stamps[k]} :: 0 <= k < |tags| ==>
         && stamps[k].own - MAX_SEND_BUFFER - 1 <= tags[k].pos <= stamps[k].own <= own
         && stamps[k].peer - MAX_SEND_BUFFER <= tags[k].ack <= stamps[k].peer <= peer
         && tags[k].ack <= rcv
  }

  function Stamps(n: nat, s: Stamp): (r: seq<Stamp>)
    ensures |r| == n && forall k :: 0 <= k < n ==> r[k] == s
  {
    seq(n, _ => s)
  }

  /** The history goes on: what is sent now carries positions within a send buffer of the totals. */
  lemma HistoryGoesOn(tags0: seq<Tag>, stamps0: seq<Stamp>, tags: seq<Tag>, own0: nat, own: nat, peer: nat,
                      rcv0: nat, rcv: nat, una: nat)
    requires History(tags0, stamps0, own0, peer, rcv0) && tags0 <= tags
    requires SentFrom(tags, |tags0|, una - 1, rcv0, rcv)
    requires own0 <= own <= una + MAX_SEND_BUFFER && rcv0 <= rcv <= peer <= rcv0 + MAX_SEND_BUFFER
    requires forall k {:trigger tags[k]} :: 0 <= k < |tags| ==> tags[k].pos <= own
    ensures History(tags, stamps0 + Stamps(|tags| - |tags0|, Stamp(own, peer)), own, peer, rcv)
  {
    var stamps := stamps0 + Stamps(|tags| - |tags0|, Stamp(own, peer));
    forall k {:trigger tags[k]} {:trigger stamps[k]} | 0 <= k < |tags|
      ensures stamps[k].own - MAX_SEND_BUFFER - 1 <= tags[k].pos <= stamps[k].own <= own
      ensures stamps[k].peer - MAX_SEND_BUFFER <= tags[k].ack <= stamps[k].peer <= peer
      ensures tags[k].ack <= rcv
    {
      if k < |tags0| {
        assert tags[k] == tags0[k] && stamps[k] == stamps0[k];
      } else {
        assert stamps[k] == Stamp(own, peer);
      }
    }
  }

  lemma HistoryLater(tags: seq<Tag>, stamps: seq<Stamp>, own: nat, peer: nat, peer': nat, rcv: nat)
    requires History(tags, stamps, own, peer, rcv) && peer <= peer'
    ensures History(tags, stamps, own, peer', rcv)
  {
  }

  ghost predicate Apart(a: PseudoTcpSocket, b: PseudoTcpSocket)
    reads a.sbuf, a.rbuf, b.sbuf, b.rbuf
  {
    && a != b && {a.sbuf, a.rbuf} !! {b.sbuf, b.rbuf}
    && {a.sbuf.buffer, a.rbuf.buffer} !! {b.sbuf.buffer, b.rbuf.buffer}
    && a.Separate() && b.Separate()
  }

  /** The two ends agreed on the conversation, the initial sequence numbers and the window scales. */
  ghost predicate Agreed(a: PseudoTcpSocket, b: PseudoTcpSocket) {
    && a.conv == b.conv && a.iss == b.irs && a.irs == b.iss
    && a.rwndScale == b.swndScale && a.swndScale == b.rwndScale
  }

  /** The invariants of two sockets, each received from the other. */
  ghost predicate Paired(a: PseudoTcpSocket, b: PseudoTcpSocket)
    reads a, a.sbuf, a.sbuf.buffer, a.rbuf, a.rbuf.buffer, b, b.sbuf, b.sbuf.buffer, b.rbuf, b.rbuf.buffer
  {
    && Apart(a, b) && Agreed(a, b)
    && a.Ready() && a.RecvValid(b.accepted) && a.track.una <= b.Rcv()
    && b.Ready() && b.RecvValid(a.accepted) && b.track.una <= a.Rcv()
  }

  /** Both keep to the windows they granted each other. */
  ghost predicate Windowed(a: PseudoTcpSocket, b: PseudoTcpSocket)
    reads a, a.rbuf, b, b.rbuf
  {
    a.Disciplined(b.Edge()) && b.Disciplined(a.Edge())
  }

  /** Everything unacknowledged fits a send buffer, and what is received lies within it. */
  lemma PairedTotals(a: PseudoTcpSocket, b: PseudoTcpSocket)
    requires Paired(a, b)
    ensures a.track.una <= a.track.nxt <= |a.accepted| <= a.track.una + MAX_SEND_BUFFER
    ensures a.track.una <= b.Rcv() <= |a.accepted| && a.rbuf.Valid() && a.sbuf.Valid()
    ensures a.delivered <= b.accepted
  {
    hide PseudoTcpSocket.Ready, PseudoTcpSocket.RecvValid;
    a.FlightFacts();
    a.ReceivedPrefix(b.accepted);
    b.ReceivedPrefix(a.accepted);
  }

  lemma PairedBack(a: PseudoTcpSocket, b: PseudoTcpSocket)
    requires Paired(a, b)
    ensures Paired(b, a)
  {
    hide PseudoTcpSocket.Ready, PseudoTcpSocket.RecvValid;
  }

  /** What `send` can accept. */
  ghost function Room(a: PseudoTcpSocket): int
    reads a, a.sbuf
  {
    if a.closed then 0 else a.sbuf.buffer.Length - a.sbuf.dataLength
  }

  method SocketSends(a: PseudoTcpSocket, b: PseudoTcpSocket, data: seq<byte>, now: u32) returns (n: nat)
    requires Paired(a, b)
    modifies a, a.sbuf`dataLength, a.sbuf.buffer
    ensures Paired(a, b) && (old(Windowed(a, b)) ==> Windowed(a, b))
    ensures n == Min(|data|, old(Room(a))) && a.accepted == old(a.accepted) + data[..n]
    ensures a.delivered == old(a.delivered) && a.Rcv() == old(a.Rcv()) && a.track.una == old(a.track.una)
    ensures a.Edge() == old(a.Edge())
    ensures old(a.tags) <= a.tags && SentFrom(a.tags, |old(a.tags)|, a.track.una - 1, a.Rcv(), a.Rcv())
  {
    hide PseudoTcpSocket.Ready, PseudoTcpSocket.RecvValid, PseudoTcpSocket.Disciplined, PseudoTcpSocket.Quiet, SentFrom;
    PairedTotals(a, b);
    var r := a.Send(data, now, b.Edge());
    n := 0;
    if r.Accepted? {
      n := r.n;
    }
    b.ReceivedGrows(old(a.accepted), a.accepted);
  }

  /** How many bytes `recv` returns; without FIN-ACK support a closed socket returns none. */
  ghost function Readable(a: PseudoTcpSocket, len: nat): nat
    reads a, a.rbuf
  {
    if !a.supportFinAck && a.closed then 0 else Min(len, a.rbuf.dataLength)
  }

  method SocketReads(a: PseudoTcpSocket, b: PseudoTcpSocket, len: nat, now: u32) returns (bytes: seq<byte>)
    requires Paired(a, b)
    modifies a, a.rbuf`readPosition, a.rbuf`dataLength
    ensures Paired(a, b) && (old(Windowed(a, b)) ==> Windowed(a, b))
    ensures bytes == old(a.rbuf.Contents()[..Readable(a, len)]) && a.delivered == old(a.delivered) + bytes
    ensures old(Windowed(a, b)) ==> old(a.Edge()) <= a.Edge()
    ensures a.accepted == old(a.accepted) && a.Rcv() == old(a.Rcv()) && a.track.una == old(a.track.una)
    ensures old(a.tags) <= a.tags && SentFrom(a.tags, |old(a.tags)|, a.track.una - 1, a.Rcv(), a.Rcv())
    ensures old(a.closed) ==> a.closed
  {
    hide PseudoTcpSocket.Ready, PseudoTcpSocket.RecvValid, PseudoTcpSocket.Disciplined, PseudoTcpSocket.Quiet, SentFrom;
    PairedTotals(a, b);
    ghost var expected := a.rbuf.Contents()[..Readable(a, len)];
    var r := a.Recv(len, now, b.accepted, b.Edge());
    bytes := [];
    if r.Received? {
      bytes := r.data;
    }
    assert bytes == expected;
    if old(Windowed(a, b)) {
      b.DisciplinedFurther(old(a.Edge()), a.Edge());
    }
  }

  method SocketTicks(a: PseudoTcpSocket, b: PseudoTcpSocket, now: u32)
    requires Paired(a, b)
    modifies a
    ensures Paired(a, b) && (old(Windowed(a, b)) ==> Windowed(a, b))
    ensures a.accepted == old(a.accepted) && a.delivered == old(a.delivered) && a.track.una == old(a.track.una)
    ensures a.Edge() == old(a.Edge())
    ensures old(a.tags) <= a.tags && SentFrom(a.tags, |old(a.tags)|, a.track.una - 1, a.Rcv(), a.Rcv())
  {
    hide PseudoTcpSocket.Ready, PseudoTcpSocket.RecvValid, PseudoTcpSocket.Disciplined, PseudoTcpSocket.Quiet, SentFrom;
    a.Tick(now, b.Edge());
  }

  method SocketAdvises(a: PseudoTcpSocket, b: PseudoTcpSocket, mtu: u16)
    requires Paired(a, b) && PACKET_OVERHEAD < mtu
    modifies a
    ensures Paired(a, b) && (old(Windowed(a, b)) ==> Windowed(a, b))
    ensures a.accepted == old(a.accepted) && a.delivered == old(a.delivered) && a.tags == old(a.tags)
    ensures a.Edge() == old(a.Edge())
    ensures a.closed || a.tx.mss == mtu - PACKET_OVERHEAD
  {
    hide PseudoTcpSocket.Ready, PseudoTcpSocket.RecvValid, PseudoTcpSocket.WindowValid, PayloadWithin;
    a.NotifyMtu(mtu);
  }

  /** What the peer sent is genuine and keeps to the windows. */
  lemma PacketGenuine(a: PseudoTcpSocket, b: PseudoTcpSocket, k: nat)
    requires Paired(a, b) && k < |b.out|
    ensures |b.tags| == |b.out| && Genuine(b.out[k], b.tags[k], a.irs, a.iss, b.accepted)
    ensures |b.out[k].data| <= MAX_MSS && b.out[k].conv == a.conv
    ensures Windowed(a, b) && b.tags[k].ack <= b.Rcv() ==> a.WithinWindows(b.out[k], b.tags[k], b.Edge())
  {
    hide PseudoTcpSocket.RecvValid, At, Tracks, PseudoTcpSocket.Buffered;
  }

  /** `process` on the `k`-th packet the peer ever sent, whose numbers can be told from all others. */
  method SocketProcesses(a: PseudoTcpSocket, b: PseudoTcpSocket, k: nat, now: u32) returns (r: Outcome)
    requires Paired(a, b) && k < |b.out| && k < |b.tags| && a.Live(b.tags[k]) && b.tags[k].ack <= b.Rcv()
    modifies a, a.sbuf`readPosition, a.sbuf`dataLength, a.rbuf`dataLength, a.rbuf.buffer
    ensures Paired(a, b)
    ensures old(Windowed(a, b)) && old(a.closed || !a.Stale(b.out[k], now)) ==>
              Windowed(a, b) && a.Edge() == old(a.Edge())
    ensures a.accepted == old(a.accepted) && a.delivered == old(a.delivered)
    ensures old(a.Rcv()) <= a.Rcv() && old(a.track.una) <= a.track.una
    ensures old(a.tags) <= a.tags && SentFrom(a.tags, |old(a.tags)|, old(a.track.una) - 1, old(a.Rcv()), a.Rcv())
    ensures r == Stuck <==> old(!a.closed && a.Stale(b.out[k], now) && a.track.nxt == |a.accepted|)
    ensures r == TakenForFin ==> old(!a.closed && a.CountsAsFin(b.out[k]))
    ensures old(a.CountsAsFin(b.out[k])) ==> r != Processed
    ensures r == Dropped ==> a.closed || (b.out[k].tsecr != 0 && TimeDiff(now, b.out[k].tsecr) < 0)
    ensures r == Processed && b.tags[k].pos <= old(a.Rcv()) ==>
              a.Rcv() >= Min(b.tags[k].pos + |b.out[k].data|, |a.delivered| + a.rbuf.buffer.Length)
  {
    hide PseudoTcpSocket.Ready, PseudoTcpSocket.RecvValid, PseudoTcpSocket.Disciplined, PseudoTcpSocket.Stale,
         PseudoTcpSocket.CountsAsFin, PseudoTcpSocket.Quiet, PseudoTcpSocket.WithinWindows, PseudoTcpSocket.Live,
         HeldBack, Genuine, At, Encode, Receive, SentFrom;
    PacketGenuine(a, b, k);
    ReceiveEncoded(b.out[k]);
    var received := Receive(Encode(b.out[k]));
    r := a.Process(received.value, now, b.tags[k], b.accepted, b.Edge());
  }

  /** A socket, what its user has seen of it, and the stamps of the packets it has sent. */
  class Endpoint {
    const tcp: PseudoTcpSocket
    var stamps: seq<Stamp>
    /** The bytes its `send` calls accepted, and the bytes its `recv` calls returned. */
    var sent: seq<byte>
    var got: seq<byte>
    /** It has taken a waiting segment for a hole and sent it whatever the window said. */
    var strayed: bool

    constructor (tcp: PseudoTcpSocket)
      requires tcp.accepted == [] && tcp.delivered == []
      ensures this.tcp == tcp && stamps == [] && sent == [] && got == [] && !strayed
    {
      this.tcp := tcp;
      stamps, sent, got, strayed := [], [], [], false;
    }
  }

  /** What is written down about `x` as long as its peer is `y`. */
  ghost predicate Recorded(x: Endpoint, y: Endpoint)
    reads x, x.tcp, x.tcp.rbuf, y
  {
    && x.sent == x.tcp.accepted && x.got == x.tcp.delivered
    && History(x.tcp.tags, x.stamps, |x.sent|, |y.sent|, x.tcp.Rcv())
    && (x.strayed ==> |x.sent| + x.tcp.behind >= WINDOW)
  }

  ghost predicate Linked(x: Endpoint, y: Endpoint)
    reads x, x.tcp, x.tcp.sbuf, x.tcp.sbuf.buffer, x.tcp.rbuf, x.tcp.rbuf.buffer
    reads y, y.tcp, y.tcp.sbuf, y.tcp.sbuf.buffer, y.tcp.rbuf, y.tcp.rbuf.buffer
  {
    && x != y && Paired(x.tcp, y.tcp) && Recorded(x, y) && Recorded(y, x)
    && (!x.strayed && !y.strayed ==> Windowed(x.tcp, y.tcp))
  }

  /** What has been returned at one end is a prefix of what was accepted at the other. */
  lemma LinkedPrefix(x: Endpoint, y: Endpoint)
    requires Linked(x, y)
    ensures x.got <= y.sent
  {
    PairedTotals(x.tcp, y.tcp);
  }

  lemma LinkedFacts(x: Endpoint, y: Endpoint)
    requires Linked(x, y)
    ensures x != y && x.tcp != y.tcp && x.tcp.rbuf != y.tcp.rbuf && x.tcp.sbuf != y.tcp.rbuf
    ensures x.tcp.track.una <= x.tcp.track.nxt <= |x.sent| <= x.tcp.track.una + MAX_SEND_BUFFER
    ensures y.tcp.track.una <= x.tcp.Rcv() <= |y.sent| <= y.tcp.track.una + MAX_SEND_BUFFER
    ensures |x.tcp.tags| == |x.tcp.out| && |y.tcp.tags| == |y.tcp.out|
  {
    hide PseudoTcpSocket.Ready, PseudoTcpSocket.RecvValid, Windowed;
    PairedBack(x.tcp, y.tcp);
    PairedTotals(x.tcp, y.tcp);
    PairedTotals(y.tcp, x.tcp);
    x.tcp.FlightFacts();
    y.tcp.FlightFacts();
  }

  /** Stamps what `x` has sent since its history was `tags0`. */
  method Stamped(x: Endpoint, y: Endpoint, ghost tags0: seq<Tag>, ghost own0: nat, ghost rcv0: nat, ghost una: nat)
    requires x.tcp.Ready() && x.sent == x.tcp.accepted && tags0 <= x.tcp.tags
    requires History(tags0, x.stamps, own0, |y.sent|, rcv0)
    requires SentFrom(x.tcp.tags, |tags0|, una - 1, rcv0, x.tcp.Rcv())
    requires own0 <= |x.sent| <= una + MAX_SEND_BUFFER
    requires rcv0 <= x.tcp.Rcv() <= |y.sent| <= rcv0 + MAX_SEND_BUFFER
    modifies x`stamps
    ensures History(x.tcp.tags, x.stamps, |x.sent|, |y.sent|, x.tcp.Rcv())
  {
    hide PseudoTcpSocket.Ready, SentFrom;
    x.tcp.FlightFacts();
    x.tcp.PositionsWithin();
    assert |x.stamps| == |tags0|;
    HistoryGoesOn(tags0, x.stamps, x.tcp.tags, own0, |x.sent|, |y.sent|, rcv0, x.tcp.Rcv(), una);
    x.stamps := x.stamps + Stamps(|x.tcp.out| - |x.stamps|, Stamp(|x.sent|, |y.sent|));
  }

  method Sends(x: Endpoint, y: Endpoint, data: seq<byte>, now: u32) returns (n: nat)
    requires Linked(x, y)
    modifies x, x.tcp, x.tcp.sbuf`dataLength, x.tcp.sbuf.buffer
    ensures Linked(x, y)
    ensures x.got == old(x.got) && x.strayed == old(x.strayed) && x.tcp.Edge() == old(x.tcp.Edge())
    ensures n == Min(|data|, old(Room(x.tcp)))
    ensures x.sent == old(x.sent) + data[..n]
  {
    hide Paired, Windowed, SentFrom, History;
    LinkedFacts(x, y);
    ghost var tags0, own0 := x.tcp.tags, |x.sent|;
    n := SocketSends(x.tcp, y.tcp, data, now);
    x.sent := x.sent + data[..n];
    PairedReady(x.tcp, y.tcp);
    Stamped(x, y, tags0, own0, x.tcp.Rcv(), x.tcp.track.una);
    HistoryLater(y.tcp.tags, y.stamps, |y.sent|, own0, |x.sent|, y.tcp.Rcv());
  }

  method Reads(x: Endpoint, y: Endpoint, len: nat, now: u32)
    requires Linked(x, y)
    modifies x, x.tcp, x.tcp.rbuf`readPosition, x.tcp.rbuf`dataLength
    ensures Linked(x, y)
    ensures x.sent == old(x.sent) && x.strayed == old(x.strayed) && (old(x.tcp.closed) ==> x.tcp.closed)
    ensures x.got == old(x.got) + old(x.tcp.rbuf.Contents()[..Readable(x.tcp, len)])
    ensures !x.strayed && !y.strayed ==> old(x.tcp.Edge()) <= x.tcp.Edge()
  {
    hide Paired, Windowed, SentFrom, History;
    LinkedFacts(x, y);
    ghost var tags0 := x.tcp.tags;
    var bytes := SocketReads(x.tcp, y.tcp, len, now);
    x.got := x.got + bytes;
    PairedReady(x.tcp, y.tcp);
    Stamped(x, y, tags0, |x.sent|, x.tcp.Rcv(), x.tcp.track.una);
  }

  method Ticks(x: Endpoint, y: Endpoint, now: u32)
    requires Linked(x, y)
    modifies x, x.tcp
    ensures Linked(x, y) && x.sent == old(x.sent) && x.got == old(x.got) && x.strayed == old(x.strayed)
    ensures x.tcp.Edge() == old(x.tcp.Edge())
  {
    hide Paired, Windowed, SentFrom, History;
    LinkedFacts(x, y);
    ghost var tags0 := x.tcp.tags;
    SocketTicks(x.tcp, y.tcp, now);
    PairedReady(x.tcp, y.tcp);
    Stamped(x, y, tags0, |x.sent|, x.tcp.Rcv(), x.tcp.track.una);
  }

  method Advises(x: Endpoint, y: Endpoint, mtu: u16)
    requires Linked(x, y) && PACKET_OVERHEAD < mtu
    modifies x.tcp
    ensures Linked(x, y) && x.sent == old(x.sent) && x.got == old(x.got) && x.strayed == old(x.strayed)
    ensures x.tcp.Edge() == old(x.tcp.Edge())
    ensures x.tcp.closed || x.tcp.tx.mss == mtu - PACKET_OVERHEAD
  {
    hide Paired, Windowed, History;
    LinkedFacts(x, y);
    SocketAdvises(x.tcp, y.tcp, mtu);
  }

  /** The `k`-th packet `y` ever sent exists and is not too old for `x`. */
  predicate Fresh(x: Endpoint, y: Endpoint, k: nat)
    reads x, y, y.tcp
  {
    && k < |y.tcp.out| && k < |y.stamps|
    && |y.sent| - y.stamps[k].own <= MAX_AGE && |x.sent| - y.stamps[k].peer <= MAX_AGE
  }

  /** It is processed: the socket is open and the echoed timestamp is not from the future. */
  predicate Taken(x: Endpoint, y: Endpoint, k: nat, now: u32)
    reads x, x.tcp, y, y.tcp
  {
    && Fresh(x, y, k) && !x.tcp.closed
    && (y.tcp.out[k].tsecr == 0 || TimeDiff(now, y.tcp.out[k].tsecr) >= 0)
  }

  /** A packet that is not too old can be told from every other one by its wrapped numbers. */
  lemma ArrivalLive(x: Endpoint, y: Endpoint, k: nat)
    requires Linked(x, y) && Fresh(x, y, k)
    ensures k < |y.tcp.tags| && x.tcp.Live(y.tcp.tags[k]) && y.tcp.tags[k].ack <= y.tcp.Rcv()
  {
    hide Paired, Windowed;
    LinkedFacts(x, y);
  }

  lemma PairedReady(a: PseudoTcpSocket, b: PseudoTcpSocket)
    requires Paired(a, b)
    ensures a.Ready() && a.Rcv() <= |b.accepted| && |a.accepted| <= a.track.una + MAX_SEND_BUFFER
  {
    hide PseudoTcpSocket.Ready, PseudoTcpSocket.RecvValid;
    PairedTotals(a, b);
    a.ReceivedPrefix(b.accepted);
  }

  /** A packet that is not too old arrives. */
  method Delivers(x: Endpoint, y: Endpoint, k: nat, now: u32) returns (r: Outcome)
    requires Linked(x, y) && Fresh(x, y, k) && k < |y.tcp.tags|
    modifies x, x.tcp, x.tcp.sbuf`readPosition, x.tcp.sbuf`dataLength, x.tcp.rbuf`dataLength, x.tcp.rbuf.buffer
    ensures Linked(x, y) && x.sent == old(x.sent) && x.got == old(x.got)
    ensures x.strayed <==> old(x.strayed || (!x.tcp.closed && x.tcp.Stale(y.tcp.out[k], now)))
    ensures !x.strayed && !y.strayed ==> x.tcp.Edge() == old(x.tcp.Edge())
    ensures r == Stuck <==> old(!x.tcp.closed && x.tcp.Stale(y.tcp.out[k], now) && x.tcp.track.nxt == |x.sent|)
    ensures r == TakenForFin ==> old(!x.tcp.closed && x.tcp.CountsAsFin(y.tcp.out[k]))
    ensures old(x.tcp.CountsAsFin(y.tcp.out[k])) ==> r != Processed
    ensures r == Dropped ==> x.tcp.closed || (y.tcp.out[k].tsecr != 0 && TimeDiff(now, y.tcp.out[k].tsecr) < 0)
    ensures r == Processed && y.tcp.tags[k].pos <= old(x.tcp.Rcv()) ==>
              x.tcp.Rcv() >= Min(y.tcp.tags[k].pos + |y.tcp.out[k].data|, |x.got| + x.tcp.rbuf.buffer.Length)
  {
    hide Paired, Windowed, SentFrom, History, PseudoTcpSocket.Live, PseudoTcpSocket.Stale, PseudoTcpSocket.CountsAsFin,
         TimeDiff, Fresh;
    LinkedFacts(x, y);
    ArrivalLive(x, y, k);
    PairedReady(x.tcp, y.tcp);
    x.tcp.StaleDistance(y.tcp.out[k], now);
    x.strayed := x.strayed || (!x.tcp.closed && x.tcp.Stale(y.tcp.out[k], now));
    ghost var tags0, rcv0, una0 := x.tcp.tags, x.tcp.Rcv(), x.tcp.track.una;
    r := SocketProcesses(x.tcp, y.tcp, k, now);
    PairedReady(x.tcp, y.tcp);
    Stamped(x, y, tags0, |x.sent|, rcv0, una0);
  }

  /** How an event leaves a socket; all but the first end the run. */
  datatype Fate = Alive | BreaksDown | TakesForFin | Unusable

  /**
   The `k`-th packet `y` ever sent arrives at `x`, unless it is too old. Payload that follows on
   what was received is received, as far as the buffer holds it. The socket breaks down exactly if
   the packet is stale and nothing waits to be sent. It takes a packet for a FIN only if that ends
   at number zero, and receives none that does.
   */
  method Arrives(x: Endpoint, y: Endpoint, k: nat, now: u32) returns (fate: Fate)
    requires Linked(x, y)
    modifies x, x.tcp, x.tcp.sbuf`readPosition, x.tcp.sbuf`dataLength, x.tcp.rbuf`dataLength, x.tcp.rbuf.buffer
    ensures Linked(x, y) && x.sent == old(x.sent) && x.got == old(x.got)
    ensures !x.strayed && !y.strayed ==> x.tcp.Edge() == old(x.tcp.Edge())
    ensures fate == BreaksDown <==>
            old(Taken(x, y, k, now) && x.tcp.Stale(y.tcp.out[k], now) && x.tcp.track.nxt == |x.sent|)
    ensures fate != Unusable
    ensures fate == TakesForFin ==> old(Fresh(x, y, k) && !x.tcp.closed && x.tcp.CountsAsFin(y.tcp.out[k]))
    ensures old(Taken(x, y, k, now) && x.tcp.CountsAsFin(y.tcp.out[k])) ==> fate != Alive || x.tcp.closed
    ensures x.strayed <==> old(x.strayed || (Taken(x, y, k, now) && x.tcp.Stale(y.tcp.out[k], now)))
    ensures fate == Alive && !x.tcp.closed && old(Taken(x, y, k, now))
            && k < |y.tcp.tags| && y.tcp.tags[k].pos <= old(x.tcp.Rcv()) ==>
              x.tcp.Rcv() >= Min(y.tcp.tags[k].pos + |y.tcp.out[k].data|, |x.got| + x.tcp.rbuf.buffer.Length)
  {
    hide Paired, Windowed, Recorded, PseudoTcpSocket.Stale, PseudoTcpSocket.CountsAsFin, TimeDiff;
    LinkedFacts(x, y);
    fate := Alive;
    if Fresh(x, y, k) {
      assert x.tcp.Stale(y.tcp.out[k], now) ==> Taken(x, y, k, now) || x.tcp.closed by {
        if x.tcp.Stale(y.tcp.out[k], now) {
          StaleInTime(x.tcp, y.tcp.out[k], now);
        }
      }
      var r := Delivers(x, y, k, now);
      fate := if r == Stuck then BreaksDown else if r == TakenForFin then TakesForFin else Alive;
    }
  }

  /** While less than a word of the peer's numbers is used up, no packet is taken for a FIN. */
  lemma NotTakenForFin(x: Endpoint, y: Endpoint, k: nat)
    requires Linked(x, y) && k < |y.tcp.out| && x.tcp.CountsAsFin(y.tcp.out[k])
    ensures x.tcp.supportFinAck && x.tcp.irs + |y.sent| + MAX_MSS >= WORD
  {
    hide PseudoTcpSocket.Ready, PseudoTcpSocket.RecvValid, Windowed, History, PseudoTcpSocket.CountsAsFin, Genuine;
    LinkedFacts(x, y);
    PacketGenuine(x.tcp, y.tcp, k);
    x.tcp.CountsAsFinExact(y.tcp.out[k]);
    FinSupported(x.tcp, y.tcp.out[k]);
  }

  lemma FinSupported(a: PseudoTcpSocket, packet: Segment)
    requires a.CountsAsFin(packet)
    ensures a.supportFinAck
  {
  }

  lemma StaleInTime(a: PseudoTcpSocket, packet: Segment, now: u32)
    requires a.Stale(packet, now)
    ensures packet.tsecr == 0 || TimeDiff(now, packet.tsecr) >= 0
  {
  }

  /**
   Progress: the payload of a packet that follows on what was received and fits the buffer, once
   delivered and read, is in the user's hands.
   */
  method ArrivesAndReads(x: Endpoint, y: Endpoint, k: nat, now: u32) returns (fate: Fate)
    requires Linked(x, y)
    modifies x, x.tcp, x.tcp.sbuf`readPosition, x.tcp.sbuf`dataLength
    modifies x.tcp.rbuf`readPosition, x.tcp.rbuf`dataLength, x.tcp.rbuf.buffer
    ensures Linked(x, y) && x.sent == old(x.sent)
    ensures fate == Alive && !x.tcp.closed && old(Taken(x, y, k, now)) && y.tcp.out[k].data != [] ==>
              var pos, data := y.tcp.tags[k].pos, y.tcp.out[k].data;
              pos <= old(x.tcp.Rcv()) && pos + |data| <= |old(x.got)| + x.tcp.rbuf.buffer.Length ==>
                0 <= pos && pos + |data| <= |x.got| && x.got[pos..pos + |data|] == data
  {
    hide PseudoTcpSocket.Ready, PseudoTcpSocket.RecvValid, PseudoTcpSocket.Disciplined, History, At;
    fate := Arrives(x, y, k, now);
    Reads(x, y, x.tcp.rbuf.dataLength, now);
    LinkedPrefix(x, y);
    if k < |y.tcp.out| {
      PacketGenuine(x.tcp, y.tcp, k);
    }
  }

  /** How many bytes an event offers to `send`. */
  function OfferedBy(e: Event): nat {
    if e.UserSends? then |e.data| else 0
  }

  function Offered(script: seq<Event>, side: Side): nat {
    if script == [] then 0
    else Offered(script[..|script| - 1], side)
         + if script[|script| - 1].side == side then OfferedBy(script[|script| - 1]) else 0
  }

  lemma OfferedNothing()
    ensures Offered([], Left) == 0 && Offered([], Right) == 0
  {
  }

  lemma Different(x: Endpoint, y: Endpoint)
    requires Linked(x, y)
    ensures x != y
  {
    hide Paired, Recorded;
  }

  lemma OfferedNext(script: seq<Event>, i: nat, side: Side)
    requires i < |script|
    ensures Offered(script[..i + 1], side)
         == Offered(script[..i], side) + if script[i].side == side then OfferedBy(script[i]) else 0
  {
    assert script[..i + 1][..i] == script[..i];
  }

  lemma {:induction false} OfferedSoFar(script: seq<Event>, n: nat, side: Side)
    requires n <= |script|
    ensures Offered(script[..n], side) <= Offered(script, side)
    decreases |script|
  {
    if n == |script| {
      assert script[..n] == script;
    } else {
      assert script[..|script| - 1][..n] == script[..n];
      OfferedSoFar(script[..|script| - 1], n, side);
    }
  }

  /** The peer's numbers may reach zero again within its next packet. */
  ghost predicate NearZero(x: Endpoint, y: Endpoint)
    reads y
  {
    x.tcp.supportFinAck && x.tcp.irs + |y.sent| + MAX_MSS >= WORD
  }

  method Happens(x: Endpoint, y: Endpoint, e: Event) returns (fate: Fate)
    requires Linked(x, y)
    modifies x, x.tcp, x.tcp.sbuf`readPosition, x.tcp.sbuf`dataLength, x.tcp.sbuf.buffer
    modifies x.tcp.rbuf`readPosition, x.tcp.rbuf`dataLength, x.tcp.rbuf.buffer
    ensures Linked(x, y)
    ensures old(x.sent) <= x.sent && old(x.got) <= x.got && |x.sent| <= |old(x.sent)| + OfferedBy(e)
    ensures y.tcp.Edge() == old(y.tcp.Edge()) && (!x.strayed && !y.strayed ==> old(x.tcp.Edge()) <= x.tcp.Edge())
    ensures fate == BreaksDown ==> x.strayed
    ensures fate == TakesForFin ==> NearZero(x, y)
    ensures fate == Unusable <==> e.MtuAdvised? && e.mtu <= PACKET_OVERHEAD && !x.tcp.closed
    ensures old(x.strayed) ==> x.strayed
    ensures e.MtuAdvised? && fate == Alive ==> x.tcp.closed || x.tcp.tx.mss == e.mtu - PACKET_OVERHEAD
    ensures e.UserSends? ==> |x.sent| == |old(x.sent)| + Min(|e.data|, old(Room(x.tcp)))
    ensures e.UserReads? ==> |x.got| == |old(x.got)| + old(Readable(x.tcp, e.len))
    ensures e.PacketArrives? && fate == Alive && !x.tcp.closed && old(Taken(x, y, e.index, e.now))
            && e.index < |y.tcp.tags| && y.tcp.tags[e.index].pos <= old(x.tcp.Rcv()) ==>
              x.tcp.Rcv() >= Min(y.tcp.tags[e.index].pos + |y.tcp.out[e.index].data|,
                                 |x.got| + x.tcp.rbuf.buffer.Length)
  {
    hide Linked, Taken, PseudoTcpSocket.Stale, PseudoTcpSocket.CountsAsFin;
    fate := Alive;
    LinkedFacts(x, y);
    match e
    case UserSends(_, data, now) => var n := Sends(x, y, data, now);
    case UserReads(_, len, now) => Reads(x, y, len, now);
    case ClockTicks(_, now) => Ticks(x, y, now);
    case MtuAdvised(_, mtu) =>
      if PACKET_OVERHEAD < mtu {
        Advises(x, y, mtu);
      } else if !x.tcp.closed {
        fate := Unusable;
      }
    case PacketArrives(_, k, now) =>
      ghost var ends := Fresh(x, y, k) && x.tcp.CountsAsFin(y.tcp.out[k]);
      if ends {
        NotTakenForFin(x, y, k);
      }
      fate := Arrives(x, y, k, now);
  }

  lemma StrayedAfter(x: Endpoint, y: Endpoint)
    requires Linked(x, y) && x.strayed
    ensures |x.sent| + x.tcp.behind >= WINDOW
  {
  }

  lemma LinkedBack(x: Endpoint, y: Endpoint)
    requires Linked(x, y)
    ensures Linked(y, x)
  {
    hide Paired, Recorded, PseudoTcpSocket.Disciplined;
    PairedBack(x.tcp, y.tcp);
  }

  /** Nothing in the script ends the run early. */
  ghost predicate Smooth(left: Endpoint, right: Endpoint, script: seq<Event>)
    reads left, right
  {
    var l, r := |left.sent| + Offered(script, Left), |right.sent| + Offered(script, Right);
    && l + left.tcp.behind < WINDOW && r + right.tcp.behind < WINDOW
    && (left.tcp.supportFinAck ==> left.tcp.irs + r + MAX_MSS < WORD)
    && (right.tcp.supportFinAck ==> right.tcp.irs + l + MAX_MSS < WORD)
    && forall i :: 0 <= i < |script| && script[i].MtuAdvised? ==> script[i].mtu > PACKET_OVERHEAD
  }

  /**
   End to end: whatever the users, the clocks and the network do, what either user has read is a
   prefix of what the other user has written, and no window closes from the right. The script stops
   where a socket breaks down, takes a packet for a FIN or is told an unusable packet size. None of
   these happens, and the windows are kept, under the bounds of `Smooth`.
   */
  method Run(left: Endpoint, right: Endpoint, script: seq<Event>) returns (n: nat, fate: Fate)
    requires Linked(left, right)
    modifies left, left.tcp, left.tcp.sbuf`readPosition, left.tcp.sbuf`dataLength, left.tcp.sbuf.buffer
    modifies left.tcp.rbuf`readPosition, left.tcp.rbuf`dataLength, left.tcp.rbuf.buffer
    modifies right, right.tcp, right.tcp.sbuf`readPosition, right.tcp.sbuf`dataLength, right.tcp.sbuf.buffer
    modifies right.tcp.rbuf`readPosition, right.tcp.rbuf`dataLength, right.tcp.rbuf.buffer
    ensures Linked(left, right) && n <= |script|
    ensures left.got <= right.sent && right.got <= left.sent
    ensures !left.strayed && !right.strayed ==>
              old(left.tcp.Edge()) <= left.tcp.Edge() && old(right.tcp.Edge()) <= right.tcp.Edge()
    ensures fate == Alive ==> n == |script|
    ensures fate == BreaksDown ==> left.strayed || right.strayed
    ensures fate == TakesForFin ==> NearZero(left, right) || NearZero(right, left)
    ensures fate == Unusable ==> n > 0 && script[n - 1].MtuAdvised? && script[n - 1].mtu <= PACKET_OVERHEAD
    ensures old(Smooth(left, right, script)) ==> fate == Alive && !left.strayed && !right.strayed
    ensures old(left.sent) <= left.sent && old(left.got) <= left.got
    ensures old(right.sent) <= right.sent && old(right.got) <= right.got
    ensures |left.sent| <= |old(left.sent)| + Offered(script, Left)
            && |right.sent| <= |old(right.sent)| + Offered(script, Right)
    ensures script != [] && script[0].UserSends? && script[0].side == Left ==>
              |left.sent| >= |old(left.sent)| + Min(|script[0].data|, old(Room(left.tcp)))
    ensures script != [] && script[0].UserSends? && script[0].side == Right ==>
              |right.sent| >= |old(right.sent)| + Min(|script[0].data|, old(Room(right.tcp)))
  {
    hide Linked, Offered, OfferedBy, PseudoTcpSocket.Edge;
    Different(left, right);
    OfferedNothing();
    n, fate := 0, Alive;
    while n < |script| && fate == Alive
      invariant n <= |script| && Linked(left, right)
      invariant fate == BreaksDown ==> left.strayed || right.strayed
      invariant fate == TakesForFin ==> NearZero(left, right) || NearZero(right, left)
      invariant fate == Unusable ==> n > 0 && script[n - 1].MtuAdvised? && script[n - 1].mtu <= PACKET_OVERHEAD
      invariant !left.strayed && !right.strayed ==>
                  old(left.tcp.Edge()) <= left.tcp.Edge() && old(right.tcp.Edge()) <= right.tcp.Edge()
      invariant old(left.sent) <= left.sent && old(left.got) <= left.got
      invariant old(right.sent) <= right.sent && old(right.got) <= right.got
      invariant n == 0 ==> && fate == Alive && Room(left.tcp) == old(Room(left.tcp))
                           && Room(right.tcp) == old(Room(right.tcp))
      invariant n > 0 && script[0].UserSends? && script[0].side == Right ==>
                  |right.sent| >= |old(right.sent)| + Min(|script[0].data|, old(Room(right.tcp)))
      invariant n > 0 && script[0].UserSends? && script[0].side == Left ==>
                  |left.sent| >= |old(left.sent)| + Min(|script[0].data|, old(Room(left.tcp)))
      invariant |left.sent| <= |old(left.sent)| + Offered(script[..n], Left)
      invariant |right.sent| <= |old(right.sent)| + Offered(script[..n], Right)
      decreases |script| - n
    {
      OfferedNext(script, n, Left);
      OfferedNext(script, n, Right);
      if script[n].side == Left {
        fate := Happens(left, right, script[n]);
      } else {
        LinkedBack(left, right);
        fate := Happens(right, left, script[n]);
        LinkedBack(right, left);
      }
      n := n + 1;
    }
    OfferedSoFar(script, n, Left);
    OfferedSoFar(script, n, Right);
    LinkedPrefix(left, right);
    LinkedBack(left, right);
    LinkedPrefix(right, left);
    if left.strayed {
      StrayedAfter(left, right);
    }
    if right.strayed {
      StrayedAfter(right, left);
    }
  }

  /** What a socket starts from; `window` is what its first segment offered to the peer. */
  datatype Settings = Settings(
    iss: u32, sendCapacity: nat, recvCapacity: nat, scale: nat, mtu: u16, ackDelay: u32, useNagling: bool,
    supportFinAck: bool, window: u32, ssthresh: u32, cwnd: u32, behind: nat, clock: Clock)

  predicate Fitting(s: Settings) {
    && 0 < s.sendCapacity <= MAX_SEND_BUFFER && 0 < s.recvCapacity < WINDOW
    && s.recvCapacity <= Shl(0xFFFF, s.scale) && PACKET_OVERHEAD < s.mtu && s.window <= s.recvCapacity
    && s.ssthresh > 0
  }

  method Connect(conv: u32, own: Settings, peer: Settings) returns (x: Endpoint)
    requires Fitting(own) && Fitting(peer)
    ensures fresh(x) && fresh(x.tcp) && fresh(x.tcp.sbuf) && fresh(x.tcp.rbuf)
    ensures fresh(x.tcp.sbuf.buffer) && fresh(x.tcp.rbuf.buffer)
    ensures x.tcp.Separate() && x.tcp.Ready() && x.tcp.RecvValid([]) && x.tcp.WindowValid()
    ensures x.tcp.conv == conv && x.tcp.iss == own.iss && x.tcp.irs == peer.iss && x.tcp.behind == own.behind
    ensures x.tcp.rwndScale == own.scale && x.tcp.swndScale == peer.scale
    ensures x.tcp.out == [] && x.tcp.tags == [] && x.tcp.accepted == [] && x.tcp.delivered == []
    ensures x.tcp.SendEdge() == peer.window && x.tcp.track.una == 0 && x.tcp.Edge() == own.recvCapacity
    ensures x.stamps == [] && x.sent == [] && x.got == [] && !x.tcp.closed && !x.strayed
    ensures Room(x.tcp) == own.sendCapacity && x.tcp.supportFinAck == own.supportFinAck
  {
    hide PseudoTcpSocket.Ready, PseudoTcpSocket.RecvValid, PseudoTcpSocket.WindowValid, Shl;
    var level := LevelFor(own.mtu);
    var left := Opening(peer.window, own.mtu - PACKET_OVERHEAD, level, own.ssthresh, own.cwnd, own.behind, own.clock);
    var tcp := new PseudoTcpSocket(conv, own.iss, peer.iss, own.sendCapacity, own.recvCapacity,
                                   own.scale, peer.scale, own.ackDelay, own.useNagling, own.supportFinAck, left);
    tcp.ValidAtStart(own.recvCapacity, left);
    x := new Endpoint(tcp);
  }

  /** Two fresh sockets that have agreed on their settings satisfy every invariant. */
  method Establish(conv: u32, l: Settings, r: Settings) returns (left: Endpoint, right: Endpoint)
    requires Fitting(l) && Fitting(r)
    ensures Linked(left, right) && left.sent == [] && left.got == [] && right.sent == [] && right.got == []
    ensures !left.strayed && !right.strayed && left.tcp.behind == l.behind && right.tcp.behind == r.behind
    ensures left.tcp.irs == r.iss && right.tcp.irs == l.iss
    ensures left.tcp.supportFinAck == l.supportFinAck && right.tcp.supportFinAck == r.supportFinAck
    ensures Room(left.tcp) == l.sendCapacity
    ensures fresh(left) && fresh(left.tcp) && fresh(left.tcp.sbuf) && fresh(left.tcp.rbuf)
    ensures fresh(left.tcp.sbuf.buffer) && fresh(left.tcp.rbuf.buffer)
    ensures fresh(right) && fresh(right.tcp) && fresh(right.tcp.sbuf) && fresh(right.tcp.rbuf)
    ensures fresh(right.tcp.sbuf.buffer) && fresh(right.tcp.rbuf.buffer)
  {
    hide PseudoTcpSocket.Ready, PseudoTcpSocket.RecvValid, PseudoTcpSocket.WindowValid, Shl;
    left := Connect(conv, l, r);
    right := Connect(conv, r, l);
  }

  /** From two fresh sockets on, for every script; `n` events happen before the run ends. */
  method Simulate(conv: u32, l: Settings, r: Settings, script: seq<Event>)
    returns (n: nat, sentL: seq<byte>, gotL: seq<byte>, sentR: seq<byte>, gotR: seq<byte>)
    requires Fitting(l) && Fitting(r)
    ensures gotL <= sentR && gotR <= sentL
    ensures && l.behind + Offered(script, Left) < WINDOW && r.behind + Offered(script, Right) < WINDOW
            && (l.supportFinAck ==> r.iss + Offered(script, Right) + MAX_MSS < WORD)
            && (r.supportFinAck ==> l.iss + Offered(script, Left) + MAX_MSS < WORD)
            && (forall i :: 0 <= i < |script| && script[i].MtuAdvised? ==> script[i].mtu > PACKET_OVERHEAD) ==>
              n == |script|
    ensures |sentL| <= Offered(script, Left) && |sentR| <= Offered(script, Right)
    ensures script != [] && script[0].UserSends? && script[0].side == Left ==>
              |sentL| >= Min(|script[0].data|, l.sendCapacity)
  {
    hide Linked, Offered, Fitting;
    var left, right := Establish(conv, l, r);
    var fate;
    n, fate := Run(left, right, script);
    return n, left.sent, left.got, right.sent, right.got;
  }
}
