/**
 The connection states of the pseudo-TCP socket: opening, closing and resetting.

 What the state machine does not decide is an input here: whether writing packets succeeds, and
 what the acknowledgement in an arriving segment amounts to.
 */
module States {
  import opened Wrap32

  datatype State = LISTEN | SYN_SENT | SYN_RECEIVED | ESTABLISHED | CLOSED | FIN_WAIT_1 | FIN_WAIT_2
                 | CLOSING | TIME_WAIT | CLOSE_WAIT | LAST_ACK

  /** The transitions that `set_state` asserts: page 23 of RFC 793, section 4.2.2.8 of RFC 1122. */
  predicate Edge(old_: State, new_: State) {
    match (old_, new_)
    case (CLOSED, SYN_SENT) => true
    case (SYN_SENT, CLOSED) => true
    case (CLOSED, LISTEN) => true
    case (LISTEN, CLOSED) => true
    case (LISTEN, SYN_SENT) => true
    case (LISTEN, SYN_RECEIVED) => true
    case (SYN_SENT, SYN_RECEIVED) => true
    case (SYN_RECEIVED, ESTABLISHED) => true
    case (SYN_SENT, ESTABLISHED) => true
    case (SYN_RECEIVED, FIN_WAIT_1) => true
    case (ESTABLISHED, FIN_WAIT_1) => true
    case (ESTABLISHED, CLOSE_WAIT) => true
    case (FIN_WAIT_1, FIN_WAIT_2) => true
    case (FIN_WAIT_1, CLOSING) => true
    case (CLOSE_WAIT, LAST_ACK) => true
    case (FIN_WAIT_2, TIME_WAIT) => true
    case (CLOSING, TIME_WAIT) => true
    case (LAST_ACK, CLOSED) => true
    case (TIME_WAIT, CLOSED) => true
    case (SYN_RECEIVED, LISTEN) => true
    case (FIN_WAIT_1, TIME_WAIT) => true
    case _ => false
  }

  predicate HasSentFin(s: State) {
    s.CLOSED? || s.FIN_WAIT_1? || s.FIN_WAIT_2? || s.CLOSING? || s.TIME_WAIT? || s.LAST_ACK?
  }

  predicate HasReceivedFin(s: State) {
    s.CLOSED? || s.CLOSING? || s.TIME_WAIT? || s.CLOSE_WAIT? || s.LAST_ACK?
  }

  predicate HasReceivedFinAck(s: State) {
    s.CLOSED? || s.TIME_WAIT?
  }

  /** The FIN handshake so far: ours sent, ours acknowledged, the peer's counted as received. */
  datatype Handshake = Handshake(sent: bool, acked: bool, received: bool)

  /** Every state but CLOSED stands for one stage of the handshake. */
  ghost predicate Means(s: State, h: Handshake) {
    && (s != CLOSED ==> h.sent == HasSentFin(s) && h.received == HasReceivedFin(s))
    && (s != CLOSED ==> h.acked == (s == FIN_WAIT_2 || s == TIME_WAIT))
  }

  predicate Synchronized(s: State) {
    !s.LISTEN? && !s.SYN_SENT? && !s.SYN_RECEIVED?
  }

  // Runs.

  /** How far a connection has come. */
  function Stage(s: State): nat {
    match s
    case LISTEN => 0
    case SYN_SENT => 1
    case SYN_RECEIVED => 1
    case ESTABLISHED => 2
    case FIN_WAIT_1 => 3
    case CLOSE_WAIT => 3
    case FIN_WAIT_2 => 4
    case CLOSING => 4
    case LAST_ACK => 4
    case TIME_WAIT => 5
    case CLOSED => 6
  }

  /** Every step is in the table and goes forward, and the FIN predicates never turn false again. */
  ghost predicate Progress(a: State, b: State) {
    && Edge(a, b) && Stage(a) < Stage(b)
    && (HasSentFin(a) ==> HasSentFin(b)) && (HasReceivedFin(a) ==> HasReceivedFin(b))
    && (HasReceivedFinAck(a) ==> HasReceivedFinAck(b))
  }

  /** A change of state that does not go backwards, if the table allows it at all. */
  predicate Forward(a: State, b: State) {
    && (a == CLOSED ==> b != LISTEN && b != SYN_SENT)
    && (b == LISTEN ==> a != SYN_RECEIVED) && (b == SYN_RECEIVED ==> a != SYN_SENT)
  }

  lemma ForwardEdges(a: State, b: State)
    ensures Progress(a, b) <==> Edge(a, b) && Forward(a, b)
  {
  }

  /** From LISTEN on, every step is in the table. */
  ghost predicate Walk(trace: seq<State>) {
    && trace != [] && trace[0] == LISTEN
    && forall i {:trigger trace[i]} :: 0 <= i < |trace| - 1 ==> Edge(trace[i], trace[i + 1])
  }

  ghost predicate Path(trace: seq<State>) {
    && trace != [] && trace[0] == LISTEN
    && forall i {:trigger trace[i]} :: 0 <= i < |trace| - 1 ==> Progress(trace[i], trace[i + 1])
  }

  lemma {:induction false} StagesGrow(trace: seq<State>, i: nat, j: nat)
    requires Path(trace) && i < j < |trace|
    ensures Stage(trace[i]) + (j - i) <= Stage(trace[j])
  {
    hide Progress, Stage;
    if i + 1 < j {
      StagesGrow(trace, i, j - 1);
    }
    assert Progress(trace[j - 1], trace[j - 1 + 1]);
    ProgressStage(trace[j - 1], trace[j]);
  }

  lemma ProgressStage(a: State, b: State)
    requires Progress(a, b)
    ensures Stage(a) < Stage(b)
  {
    hide Edge, HasSentFin, HasReceivedFin, HasReceivedFinAck;
  }

  /** No state is entered twice, nothing follows CLOSED, and no run has more than seven states. */
  lemma PathsAreShort(trace: seq<State>)
    requires Path(trace)
    ensures forall i, j :: 0 <= i < j < |trace| ==> trace[i] != trace[j]
    ensures forall i :: 0 <= i < |trace| - 1 ==> trace[i] != CLOSED
    ensures forall i :: 0 <= i < |trace| - 1 ==> Edge(trace[i], trace[i + 1])
    ensures |trace| <= 7
  {
    forall i, j | 0 <= i < j < |trace| ensures Stage(trace[i]) + (j - i) <= Stage(trace[j]) {
      StagesGrow(trace, i, j);
    }
  }

  // Inputs.

  datatype How = Read | Write | ReadWrite

  datatype Control = NoControl | EmptyControl | Connect(supportFinAck: bool) | UnknownControl

  datatype AckOutcome = Taken(coversFin: bool) | InvalidRtt | RetransmitFails

  /** An arriving segment, with `rcv_nxt` as it stands when the FIN is looked for. */
  datatype Arrival = Arrival(sameConversation: bool, rst: bool, fin: bool, seqno: u32, len: nat, control: Control,
                             ack: AckOutcome, rcvNxt: u32)

  datatype Retransmit = NotDue | Done | Fails

  datatype ShutdownMode = SdNone | SdGraceful | SdForceful

  /**
   Calls of the public operations; `sendOk` is whether the network takes the data that
   `attempt_send` tries to send. A FIN is empty and always counts as written, so for a call that
   queues only a FIN it matters whether data is `waiting` before it.
   */
  datatype Call =
    | CallConnect(sendOk: bool)
    | CallSend(sendOk: bool)
    | CallRecv(windowWasShut: bool, sendOk: bool)
    | CallShutdown(how: How, unread: bool, waiting: bool, sendOk: bool)
    | CallClose(force: bool, unread: bool, waiting: bool, sendOk: bool)
    | CallPacket(a: Arrival, sendOk: bool)
    | CallClock(retransmit: Retransmit, windowShut: bool, sendOk: bool)
    | CallNextClock(idle: bool)

  class Connection {
    var state: State
    var supportFinAck: bool
    var shutdownMode: ShutdownMode
    var shutdownReads: bool
    /** Every state so far. */
    var trace: seq<State>
    /** The sequence number of the last FIN segment, or zero if there was none. */
    var rcvFin: u32
    /** An assertion has failed and ended the program. */
    var aborted: bool
    ghost var handshake: Handshake

    /** The trace so far, with the state at its end. */
    ghost predicate Charted()
      reads `trace, `state
    {
      Walk(trace) && trace[|trace| - 1] == state
    }

    ghost predicate Traced()
      reads `trace, `state
    {
      Charted() && Path(trace)
    }

    ghost predicate Valid()
      reads this
    {
      Traced() && Means(state, handshake)
    }

    constructor (supportFinAck: bool)
      ensures Valid() && !aborted && trace == [LISTEN] && this.supportFinAck == supportFinAck && rcvFin == 0
    {
      state, this.supportFinAck, shutdownMode, shutdownReads := LISTEN, supportFinAck, SdNone, false;
      trace, aborted, rcvFin := [LISTEN], false, 0;
      handshake := Handshake(false, false, false);
    }

    /** `set_state` with its assertion. */
    method SetState(s: State)
      requires Charted() && !aborted
      modifies `state, `trace, `aborted
      ensures Charted()
      ensures old(Path(trace)) && Forward(old(state), s) ==> Path(trace)
      ensures aborted <==> s != old(state) && !Edge(old(state), s)
      ensures old(trace) <= trace && (s == old(state) || aborted ==> trace == old(trace))
      ensures state == if aborted then old(state) else s
    {
      hide Progress, Edge, Forward;
      if s == state {
        return;
      }
      if !Edge(state, s) {
        aborted := true;
        return;
      }
      ForwardEdges(state, s);
      state, trace := s, trace + [s];
    }

    /** The switch in `closedown`, which reaches CLOSED through edges of the table. */
    method WalkToClosed()
      requires Traced() && !aborted
      modifies `state, `trace, `aborted
      ensures Traced() && !aborted && state == CLOSED && old(trace) <= trace
    {
      hide Charted, Path;
      if state == SYN_RECEIVED || state == ESTABLISHED {
        SetState(FIN_WAIT_1);
      }
      if state == FIN_WAIT_1 {
        SetState(FIN_WAIT_2);
      }
      if state == FIN_WAIT_2 || state == CLOSING {
        SetState(TIME_WAIT);
      }
      if state == CLOSE_WAIT {
        SetState(LAST_ACK);
      }
      SetState(CLOSED);
    }

    /** Ends the connection from any state through edges of the table. */
    method Closedown(local: bool, sendOk: bool)
      requires Traced() && !aborted
      modifies `state, `trace, `aborted, `shutdownMode
      ensures Traced() && !aborted && state == CLOSED && old(trace) <= trace
      ensures shutdownMode == if local && !supportFinAck then SdForceful else old(shutdownMode)
      decreases if local then 2 else 0
    {
      hide Charted, Path;
      if local && supportFinAck {
        AttemptSend(sendOk);
      } else if local {
        shutdownMode := SdForceful;
      }
      WalkToClosed();
    }

    /** What `attempt_send` does to the state: a failing write closes the connection. */
    method AttemptSend(ok: bool)
      requires Traced() && !aborted
      modifies `state, `trace, `aborted, `shutdownMode
      ensures Traced() && !aborted
      ensures old(trace) <= trace && shutdownMode == old(shutdownMode)
      ensures if ok then state == old(state) && trace == old(trace) else state == CLOSED
      decreases 1
    {
      hide Charted, Path;
      if !ok {
        Closedown(false, true);
      }
    }

    method ConnectTo(sendOk: bool) returns (ok: bool)
      requires Valid() && !aborted
      modifies `state, `trace, `aborted, `shutdownMode
      ensures Valid() && !aborted
      ensures ok <==> old(state) == LISTEN
      ensures state == if !ok then old(state) else if sendOk then SYN_SENT else CLOSED
    {
      hide Charted, Path;
      if state != LISTEN {
        return false;
      }
      SetState(SYN_SENT);
      AttemptSend(sendOk);
      return true;
    }

    /** The states in which `shutdown` queues a FIN and then moves on, whatever became of the FIN. */
    predicate ShutdownSends(how: How, unread: bool)
      reads this
    {
      && supportFinAck && how != Read
      && (((state == SYN_RECEIVED || state == ESTABLISHED) && !unread) || state == CLOSE_WAIT)
    }

    /** Queues a FIN, sends what waits before it, and moves on. */
    method SendFin(waiting: bool, sendOk: bool)
      requires Valid() && !aborted && (state == SYN_RECEIVED || state == ESTABLISHED || state == CLOSE_WAIT)
      modifies `state, `trace, `aborted, `shutdownMode, `handshake
      ensures aborted <==> waiting && !sendOk
      ensures Traced() && handshake == old(handshake).(sent := true) && shutdownMode == old(shutdownMode)
      ensures !aborted ==> Valid() && state == if old(state) == CLOSE_WAIT then LAST_ACK else FIN_WAIT_1
    {
      hide Charted, Path;
      var next := if state == CLOSE_WAIT then LAST_ACK else FIN_WAIT_1;
      handshake := handshake.(sent := true);
      AttemptSend(!waiting || sendOk);
      SetState(next);
    }

    /** The assertion in `set_state` fails exactly when data waits before the FIN and is refused. */
    method Shutdown(how: How, unread: bool, waiting: bool, sendOk: bool)
      requires Valid() && !aborted
      modifies this
      ensures aborted <==> old(ShutdownSends(how, unread)) && waiting && !sendOk
      ensures !aborted ==> Valid()
      ensures supportFinAck == old(supportFinAck) && (old(state) == CLOSED ==> state == CLOSED)
      ensures old(ShutdownSends(how, unread)) && !aborted ==>
                handshake == old(handshake).(sent := true) && state != CLOSED
      ensures aborted ==> Traced()
      ensures shutdownReads == (old(shutdownReads) || (supportFinAck && how != Write))
      ensures shutdownMode == if !supportFinAck && old(shutdownMode) == SdNone then SdGraceful else old(shutdownMode)
      ensures !supportFinAck || how == Read ==> state == old(state) && trace == old(trace)
      ensures supportFinAck && how != Read && (old(state) == LISTEN || old(state) == SYN_SENT) ==> state == CLOSED
      ensures supportFinAck && how != Read && (old(state) == SYN_RECEIVED || old(state) == ESTABLISHED) && unread ==>
                state == CLOSED
    {
      hide Charted, Path;
      if !supportFinAck {
        if shutdownMode == SdNone {
          shutdownMode := SdGraceful;
        }
        return;
      }
      if how != Write {
        shutdownReads := true;
      }
      if how == Read {
        return;
      }
      if state == LISTEN || state == SYN_SENT {
        SetState(CLOSED);
      } else if state == SYN_RECEIVED || state == ESTABLISHED {
        if unread {
          Closedown(true, sendOk);
        } else {
          SendFin(waiting, sendOk);
        }
      } else if state == CLOSE_WAIT {
        SendFin(waiting, sendOk);
      }
    }

    method Close(force: bool, unread: bool, waiting: bool, sendOk: bool)
      requires Valid() && !aborted
      modifies this
      ensures aborted <==> !force && old(ShutdownSends(ReadWrite, unread)) && waiting && !sendOk
      ensures !aborted ==> Valid()
      ensures aborted ==> Traced()
      ensures force ==> state == CLOSED
    {
      hide Charted, Path;
      if force && state != CLOSED {
        Closedown(true, sendOk);
        return;
      }
      Shutdown(ReadWrite, unread, waiting, sendOk);
    }

    /** The transitions on a FIN received or acknowledged: Figure 6 of RFC 793. */
    method OnFin(finAcked: bool, received: bool)
      requires Valid() && !aborted && (finAcked ==> HasSentFin(state))
      modifies `state, `trace, `aborted, `handshake
      ensures Valid() && !aborted
      ensures handshake == Handshake(old(handshake).sent, old(handshake).acked || finAcked,
                                     old(handshake).received || (received && Synchronized(old(state))))
      ensures state == CLOSED <==> old(state) == CLOSED || (old(state) == LAST_ACK && finAcked)
      ensures Synchronized(state) == Synchronized(old(state)) && (!Synchronized(state) ==> state == old(state))
    {
      hide Charted, Path;
      handshake := handshake.(acked := handshake.acked || finAcked,
                              received := handshake.received || (received && Synchronized(state)));
      match state
      case ESTABLISHED =>
        if received {
          SetState(CLOSE_WAIT);
        }
      case CLOSING =>
        if finAcked {
          SetState(TIME_WAIT);
        }
      case LAST_ACK =>
        if finAcked {
          SetState(CLOSED);
        }
      case FIN_WAIT_1 =>
        if finAcked && received {
          SetState(TIME_WAIT);
        } else if finAcked {
          SetState(FIN_WAIT_2);
        } else if received {
          SetState(CLOSING);
        }
      case FIN_WAIT_2 =>
        if received {
          SetState(TIME_WAIT);
        }
      case _ =>
    }

    /** The opening handshake part of `process`; false if the segment is dropped. */
    method OnControl(control: Control) returns (ok: bool)
      requires Valid() && !aborted
      modifies `state, `trace, `aborted, `supportFinAck
      ensures Valid() && !aborted && ok == (control.NoControl? || control.Connect?)
      ensures state == if !control.Connect? then old(state)
                       else if old(state) == LISTEN then SYN_RECEIVED
                       else if old(state) == SYN_SENT then ESTABLISHED else old(state)
      ensures supportFinAck == if control.Connect? then control.supportFinAck else old(supportFinAck)
    {
      hide Charted, Path;
      match control
      case NoControl => return true;
      case EmptyControl => return false;
      case UnknownControl => return false;
      case Connect(support) =>
        supportFinAck := support;
        if state == LISTEN {
          SetState(SYN_RECEIVED);
        } else if state == SYN_SENT {
          SetState(ESTABLISHED);
        }
        return true;
    }

    /** What a segment reaches the FIN transitions with. */
    predicate Reaches(a: Arrival)
      reads `state
    {
      && a.sameConversation && !a.rst && state != CLOSED && !(state == TIME_WAIT && a.len > 0)
      && (a.control.NoControl? || a.control.Connect?) && a.ack.Taken?
    }

    /**
     Whether a FIN counts as received in its turn. If no FIN ever came, a segment that ends at
     number zero still does.
     */
    predicate FinDue(a: Arrival)
      reads `rcvFin
    {
      a.rcvNxt != 0 && Add32(a.rcvNxt, a.len) == if a.fin then a.seqno else rcvFin
    }

    /** A segment that is not a connect segment answers ours. */
    function Answered(a: Arrival): State
      reads `state
    {
      if state == SYN_RECEIVED && !a.control.Connect? then ESTABLISHED else state
    }

    /** The state after the opening handshake has seen the segment. */
    function Opened(a: Arrival): State
      reads `state
    {
      if state == LISTEN && a.control.Connect? then SYN_RECEIVED
      else if state == SYN_SENT && a.control.Connect? then ESTABLISHED
      else Answered(a)
    }

    /** The rest of `process`, once the acknowledgement has been taken. */
    method Settle(a: Arrival, finAcked: bool, sendOk: bool)
      requires Valid() && !aborted && (finAcked ==> HasSentFin(state))
      modifies `state, `trace, `aborted, `shutdownMode, `handshake, `rcvFin
      ensures Valid() && !aborted
      ensures rcvFin == if supportFinAck && a.fin then a.seqno else old(rcvFin)
      ensures !supportFinAck || (a.fin && a.len > 0) ==> handshake == old(handshake)
      ensures supportFinAck && !(a.fin && a.len > 0) ==>
                && handshake.sent == old(handshake).sent && handshake.acked == (old(handshake).acked || finAcked)
                && handshake.received == (old(handshake).received || (old(FinDue(a)) && Synchronized(old(Answered(a)))))
      ensures !sendOk && !(supportFinAck && a.fin && a.len > 0) ==> state == CLOSED
      ensures sendOk ==> (state == CLOSED <==> old(state) == CLOSED || (old(state) == LAST_ACK && handshake.acked))
      ensures sendOk && !Synchronized(state) ==> state == old(Answered(a))
    {
      hide Charted, Path;
      if state == SYN_RECEIVED && !a.control.Connect? {
        SetState(ESTABLISHED);
      }
      if supportFinAck {
        var received := FinDue(a);
        if a.fin {
          rcvFin := a.seqno;
        }
        if a.fin && a.len > 0 {
          return;
        }
        OnFin(finAcked, received);
      }
      AttemptSend(sendOk);
    }

    /** `process`, as far as it concerns the state. */
    method Process(a: Arrival, sendOk: bool)
      requires Valid() && !aborted
      modifies this
      ensures Valid() && !aborted
      ensures !a.sameConversation ==> trace == old(trace)
      ensures a.sameConversation && a.rst && !(old(state) == TIME_WAIT && a.len > 0) ==> state == CLOSED
      ensures a.sameConversation && !a.rst && (old(state) == CLOSED || (old(state) == TIME_WAIT && a.len > 0)) ==>
                state == CLOSED
      ensures old(Reaches(a)) ==>
                supportFinAck == if a.control.Connect? then a.control.supportFinAck else old(supportFinAck)
      ensures rcvFin == old(rcvFin) || (a.fin && rcvFin == a.seqno)
      ensures old(Reaches(a)) && supportFinAck && a.fin ==> rcvFin == a.seqno
      ensures old(Reaches(a)) && (!supportFinAck || (a.fin && a.len > 0)) ==> handshake == old(handshake)
      ensures old(Reaches(a)) && supportFinAck && !(a.fin && a.len > 0) ==>
                && handshake.sent == old(handshake).sent
                && handshake.acked == (old(handshake).acked || (a.ack.coversFin && HasSentFin(old(state))))
                && handshake.received == (old(handshake).received || (old(FinDue(a)) && Synchronized(old(Opened(a)))))
      ensures old(Reaches(a.(ack := Taken(false)))) && a.ack.RetransmitFails? ==> state == CLOSED
      ensures old(Reaches(a)) && !sendOk && !(supportFinAck && a.fin && a.len > 0) ==> state == CLOSED
      ensures old(Reaches(a)) && sendOk ==>
                (state == CLOSED <==> old(state) == LAST_ACK && handshake.acked)
      ensures old(Reaches(a)) && sendOk && !Synchronized(state) ==> state == old(Opened(a))
    {
      hide Charted, Path;
      if !a.sameConversation {
        return;
      }
      if state == CLOSED || (HasReceivedFinAck(state) && a.len > 0) {
        if !a.rst {
          Closedown(true, sendOk);
        }
        return;
      }
      if a.rst {
        Closedown(false, sendOk);
        return;
      }
      var ok := OnControl(a.control);
      if !ok {
        return;
      }
      var finAcked := false;
      match a.ack {
        case InvalidRtt => return;
        case RetransmitFails =>
          Closedown(true, sendOk);
          return;
        case Taken(coversFin) => finAcked := coversFin && HasSentFin(state);
      }
      Settle(a, finAcked, sendOk);
    }

    method NotifyClock(retransmit: Retransmit, windowShut: bool, sendOk: bool)
      requires Valid() && !aborted
      modifies `state, `trace, `aborted, `shutdownMode
      ensures Valid() && !aborted
      ensures old(state) == TIME_WAIT && supportFinAck ==> state == CLOSED
      ensures retransmit.Fails? || windowShut ==> state == CLOSED
      ensures old(state) != TIME_WAIT && !retransmit.Fails? && !windowShut ==>
                state == if old(state) == LAST_ACK && supportFinAck && !sendOk then CLOSED else old(state)
    {
      hide Charted, Path;
      if state == CLOSED {
        return;
      }
      if supportFinAck && state == TIME_WAIT {
        SetState(CLOSED);
      }
      if supportFinAck && state == LAST_ACK {
        AttemptSend(sendOk);
      }
      if retransmit.Fails? || windowShut {
        Closedown(true, sendOk);
      }
    }

    method GetNextClock(idle: bool)
      requires Valid() && !aborted
      modifies `state, `trace, `aborted, `shutdownMode
      ensures Valid() && !aborted
      ensures shutdownMode == old(shutdownMode)
      ensures shutdownMode == SdForceful || (shutdownMode == SdGraceful && (old(state) != ESTABLISHED || idle)) ==>
                state == CLOSED
      ensures shutdownMode == SdNone || (shutdownMode == SdGraceful && old(state) == ESTABLISHED && !idle) ==>
                trace == old(trace)
    {
      hide Charted, Path;
      if shutdownMode == SdForceful {
        Closedown(false, true);
        return;
      }
      if shutdownMode == SdGraceful && (state != ESTABLISHED || idle) {
        Closedown(false, true);
      }
    }

    method Send(sendOk: bool)
      requires Valid() && !aborted
      modifies `state, `trace, `aborted, `shutdownMode
      ensures Valid() && !aborted && state == if sendOk || old(state) != ESTABLISHED then old(state) else CLOSED
    {
      hide Charted, Path;
      if state == ESTABLISHED {
        AttemptSend(sendOk);
      }
    }

    method Recv(windowWasShut: bool, sendOk: bool)
      requires Valid() && !aborted
      modifies `state, `trace, `aborted, `shutdownMode
      ensures Valid() && !aborted
      ensures var refused := if supportFinAck then shutdownReads else old(state) != ESTABLISHED;
              state == if sendOk || !windowWasShut || refused then old(state) else CLOSED
    {
      hide Charted, Path;
      if supportFinAck && shutdownReads {
        return;
      }
      if !supportFinAck && state != ESTABLISHED {
        return;
      }
      if windowWasShut {
        AttemptSend(sendOk);
      }
    }

    /** The one kind of call whose assertion fails. */
    predicate Breaks(c: Call)
      reads this
    {
      && (c.CallShutdown? || c.CallClose?) && c.waiting && !c.sendOk
      && (c.CallShutdown? ==> ShutdownSends(c.how, c.unread))
      && (c.CallClose? ==> !c.force && ShutdownSends(ReadWrite, c.unread))
    }

    method Perform(c: Call)
      requires Valid() && !aborted
      modifies this
      ensures Traced() && (!aborted ==> Valid())
      ensures aborted <==> old(Breaks(c))
      ensures c.CallClose? && c.force ==> state == CLOSED
    {
      hide Charted, Path;
      match c
      case CallConnect(sendOk) => var _ := ConnectTo(sendOk);
      case CallSend(sendOk) => Send(sendOk);
      case CallRecv(windowWasShut, sendOk) => Recv(windowWasShut, sendOk);
      case CallShutdown(how, unread, waiting, sendOk) => Shutdown(how, unread, waiting, sendOk);
      case CallClose(force, unread, waiting, sendOk) => Close(force, unread, waiting, sendOk);
      case CallPacket(a, sendOk) => Process(a, sendOk);
      case CallClock(retransmit, windowShut, sendOk) => NotifyClock(retransmit, windowShut, sendOk);
      case CallNextClock(idle) => GetNextClock(idle);
    }
  }

  /** A call that queues a FIN behind data which the network refuses. */
  predicate Refused(c: Call) {
    ((c.CallShutdown? && c.how != Read) || (c.CallClose? && !c.force)) && c.waiting && !c.sendOk
  }

  /**
   From LISTEN on, for every sequence of calls: every change of state is an edge of the table, no
   state is entered twice, nothing follows CLOSED. Only a FIN behind refused data ends the run.
   */
  method Run(supportFinAck: bool, calls: seq<Call>) returns (trace: seq<State>, n: nat)
    ensures n <= |calls| && Path(trace)
    ensures forall i :: 0 <= i < |trace| - 1 ==> Edge(trace[i], trace[i + 1]) && trace[i] != CLOSED
    ensures forall i, j :: 0 <= i < j < |trace| ==> trace[i] != trace[j]
    ensures n < |calls| ==> Refused(calls[n])
    ensures 0 < n == |calls| && calls[n - 1].CallClose? && calls[n - 1].force ==> trace[|trace| - 1] == CLOSED
    ensures (forall i :: 0 <= i < |calls| ==> !Refused(calls[i])) ==> n == |calls|
  {
    hide Progress, Edge, Means, Forward;
    var c := new Connection(supportFinAck);
    n := 0;
    while n < |calls|
      invariant n <= |calls| && c.Valid() && !c.aborted && fresh(c)
      invariant n > 0 && calls[n - 1].CallClose? && calls[n - 1].force ==> c.state == CLOSED
    {
      c.Perform(calls[n]);
      if c.aborted {
        break;
      }
      n := n + 1;
    }
    trace := c.trace;
    PathsAreShort(trace);
  }

  /** Such a run: connect, be answered, write something the network refuses and shut down. */
  method RefusedRun(how: How) returns (aborted: bool)
    requires how != Read
    ensures aborted
  {
    hide Path, Walk;
    var c := new Connection(true);
    var _ := c.ConnectTo(true);
    c.Process(Arrival(true, false, false, 0, 7, Connect(true), Taken(false), 0), true);
    c.Shutdown(how, false, true, false);
    aborted := c.aborted;
  }

  /** A connection that was never sent a FIN: a byte of data that ends at number zero puts it in CLOSE-WAIT. */
  method NoFinRun() returns (state: State)
    ensures state == CLOSE_WAIT
  {
    hide Path, Walk;
    var c := new Connection(true);
    var _ := c.ConnectTo(true);
    c.Process(Arrival(true, false, false, 0, 7, Connect(true), Taken(false), 0), true);
    c.Process(Arrival(true, false, false, WORD - 1, 1, NoControl, Taken(false), WORD - 1), true);
    state := c.state;
  }
}
