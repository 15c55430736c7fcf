/** The TCP state machine of network/include/xy_tcp_state_*.h (sections 3.2 and 3.9 of
    RFC 793): what one segment does to one socket, on which of the three lists of sockets it
    stands, and what holds over runs of segments, sends and user calls.

    Two lines are modelled by what they are evidently meant to do.  A segment is acceptable
    when its number is at most rcv_wnd past rcv_nxt, modulo 2^32, as the table above the test
    says (xy_tcp_state_others.h:77-78 joins two plain comparisons with OR instead:
    `AcceptableAsWrittenIff`).  Only a segment with data is put into the receive window,
    signalled and answered (:203 does it for every segment).  The send ring is
    SlidingWindow's subject; here a send moves buffers out of snd_buf_list and advances snd_nxt. */
module TcpState {
  import opened Common
  import opened Windows
  import opened SlidingWindow
  import Protocol

  datatype State =
    | Listen | SynSent | SynReceived | Established | FinWait1 | FinWait2
    | Close | CloseWait | Closing | LastAck | TimeWait

  /** A segment: its control bits, numbers, window, urgent pointer and text. */
  datatype Seg<+P> = Seg(
    syn: bool, ack: bool, fin: bool, rst: bool, urg: bool,
    sq: Word, ackNo: Word, win: nat, urp: nat, data: Option<P>)

  /** The control bits of what the code sends back. */
  datatype Control = AckBit | RstBit | SynAckBits | RstAckBits

  datatype Reply = Reply(control: Control, sq: Word, ackNo: Word)

  /** A buffer in snd_buf_list: the SYN of connect, the FIN of close, or text. */
  datatype Waiting<+P> = SynBuf | FinBuf | TextBuf(text: P)

  /** The lists of network/src/xy_socks.cc and queue/src/xy_syn_socks.cc that a socket is on. */
  datatype Lists = Lists(listeners: bool, synRecved: bool, established: bool)

  const NOWHERE := Lists(false, false, false)

  /** A socket with its control block. */
  datatype Sock<+P> = Sock(
    state: State, on: Lists, passive: bool, iss: Word, irs: Word,
    una: Word, nxt: Word, wnd: nat, wl1: Word, wl2: Word,
    rcvWnd: Word, rcvUp: nat, rcv: Receiver<P>, pending: seq<Waiting<P>>)

  /** What a segment does: the socket it leaves, what is sent back, and whether the event poll is
      told that there is something to read. */
  datatype Outcome<+P> = Outcome(sock: Sock<P>, replies: seq<Reply>, signal: bool)

  ghost predicate SockOk<P>(s: Sock<P>) {
    |s.rcv.view| == SIZE
  }

  function Plus(a: Word, b: nat): Word {
    (a + b) % SPACE
  }

  // ----- the stages of section 3.9, "SEGMENT ARRIVES", otherwise

  /** First: the sequence number. */
  predicate Acceptable<P>(s: Sock<P>, g: Seg<P>) {
    if s.rcvWnd == 0 then g.ack || g.urg || g.rst
    else Minus(g.sq, s.rcv.nxt) <= s.rcvWnd
  }

  predicate AcceptableAsWritten(rcvNxt: Word, rcvWnd: Word, sq: Word) {
    sq >= rcvNxt || sq <= Plus(rcvNxt, rcvWnd)
  }

  /** As written the test is right about a number exactly when the window runs over the end of
      the sequence space or the number lies in the window.  In particular it never turns down a
      number of the window, and a window that does not run over the end turns nothing down. */
  lemma AcceptableAsWrittenIff(rcvNxt: Word, rcvWnd: Word, sq: Word)
    ensures (AcceptableAsWritten(rcvNxt, rcvWnd, sq) <==> Minus(sq, rcvNxt) <= rcvWnd)
      <==> rcvNxt + rcvWnd >= SPACE || Minus(sq, rcvNxt) <= rcvWnd
    ensures rcvNxt + rcvWnd < SPACE ==> AcceptableAsWritten(rcvNxt, rcvWnd, sq)
  {
    assert Minus(sq, rcvNxt) == if sq >= rcvNxt then sq - rcvNxt else sq - rcvNxt + SPACE;
    assert Plus(rcvNxt, rcvWnd) == if rcvNxt + rcvWnd < SPACE then rcvNxt + rcvWnd else rcvNxt + rcvWnd - SPACE;
  }

  /** Fifth: the acknowledgment; SYN-RECEIVED turns one down that is out of range. */
  predicate BadAck<P>(s: Sock<P>, g: Seg<P>) {
    s.state == SynReceived && !(s.una <= g.ackNo <= s.nxt)
  }

  /** tcp_ack_window_update, on the numbers of the control block */
  function AckUpdated<P>(s: Sock<P>, g: Seg<P>): Sock<P> {
    if !(s.una < g.ackNo <= s.nxt) then s
    else if Newer(s.wl1, s.wl2, AckFields(g.ackNo, g.sq, g.win)) then
      s.(una := g.ackNo, wnd := g.win, wl1 := g.sq, wl2 := g.ackNo)
    else s.(una := g.ackNo)
  }

  /** An acknowledgment leaves snd_nxt and the receiving half alone, and does not look at the state. */
  lemma AckUpdatedKeeps<P>(s: Sock<P>, g: Seg<P>, state: State, on: Lists)
    ensures var s1 := AckUpdated(s, g);
      && s1.iss == s.iss && s1.nxt == s.nxt && s1.rcv == s.rcv && s1.state == s.state
      && s1.on == s.on && s1.passive == s.passive && s1.pending == s.pending && s1.irs == s.irs
      && s1.rcvWnd == s.rcvWnd && s1.rcvUp == s.rcvUp
    ensures AckUpdated(s.(state := state), g) == AckUpdated(s, g).(state := state)
    ensures AckUpdated(s.(on := on), g) == AckUpdated(s, g).(on := on)
  {
  }

  /** It is SlidingWindow's update, the ring and the waiting buffers left aside. */
  lemma AckUpdatedIsAcked<P, Q>(s: Sock<P>, g: Seg<P>, t: Sender<Q>)
    requires SenderOk(t)
    requires t.una == s.una && t.nxt == s.nxt && t.wnd == s.wnd && t.wl1 == s.wl1 && t.wl2 == s.wl2
    ensures var s', t' := AckUpdated(s, g), Acked(t, AckFields(g.ackNo, g.sq, g.win));
      t'.una == s'.una && t'.nxt == s'.nxt && t'.wnd == s'.wnd && t'.wl1 == s'.wl1 && t'.wl2 == s'.wl2
  {
  }

  /** From the list of half-open sockets to that of the established ones. */
  function OnEstablished(on: Lists): Lists {
    on.(synRecved := false, established := true)
  }

  /** The state once the acknowledgment was processed. */
  function AckedState<P>(s: Sock<P>, g: Seg<P>): State {
    var all := g.ackNo == s.nxt;
    match s.state
    case SynReceived => Established
    case FinWait1 => if all then FinWait2 else FinWait1
    case CloseWait => if all then TimeWait else CloseWait
    case LastAck => if all then Close else LastAck
    case other => other
  }

  /** The states that state_tcp_otherwise handles. */
  predicate Later(state: State) {
    state != Close && state != Listen && state != SynSent
  }

  function AckStage<P>(s: Sock<P>, g: Seg<P>): Sock<P>
    requires Later(s.state)
  {
    var s1 := if s.state == LastAck || s.state == TimeWait then s else AckUpdated(s, g);
    s1.(state := AckedState(s, g), on := if s.state == SynReceived then OnEstablished(s.on) else s.on)
  }

  predicate TakesText(state: State) {
    state == Established || state == FinWait1 || state == FinWait2
  }

  /** Sixth: the urgent pointer. */
  function UrgStage<P>(s: Sock<P>, g: Seg<P>): Sock<P> {
    if g.urg && TakesText(s.state) && g.urp > s.rcvUp then s.(rcvUp := g.urp) else s
  }

  /** Seventh: the text. */
  ghost function TextStage<P>(s: Sock<P>, g: Seg<P>): Outcome<P>
    requires SockOk(s)
  {
    if TakesText(s.state) && g.data.Some? then
      var s1 := s.(rcv := Arrived(s.rcv, Segment(g.sq, g.data.value)));
      Outcome(s1, [Reply(AckBit, s1.nxt, s1.rcv.nxt)], true)
    else Outcome(s, [], false)
  }

  /** The state once the FIN was processed. */
  function FinState(state: State): State {
    match state
    case Established => CloseWait
    case FinWait1 => Closing
    case FinWait2 => TimeWait
    case other => other
  }

  /** A FIN takes an established socket off its list. */
  function AfterFin<P>(s: Sock<P>): Lists {
    if s.state == Established then s.on.(established := false) else s.on
  }

  /** Eighth: the FIN. */
  ghost function FinStage<P>(s: Sock<P>, g: Seg<P>): Outcome<P> {
    if !g.fin || s.state == Close || s.state == Listen || s.state == SynSent then Outcome(s, [], false)
    else
      var s1 := s.(state := FinState(s.state), on := AfterFin(s), rcv := s.rcv.(nxt := Plus(g.sq, 1)));
      Outcome(s1, [Reply(AckBit, s1.nxt, s1.rcv.nxt)], false)
  }

  /** Second: a reset, which takes only a half-open passive socket off its list. */
  function ResetStage<P>(s: Sock<P>): Sock<P> {
    if s.state == SynReceived && s.passive then s.(state := Listen, on := s.on.(synRecved := false))
    else s.(state := Close)
  }

  /** state_tcp_otherwise */
  ghost function Otherwise<P>(s: Sock<P>, g: Seg<P>): Outcome<P>
    requires SockOk(s) && Later(s.state)
  {
    if !Acceptable(s, g) then Outcome(s, if g.rst then [] else [Reply(AckBit, s.nxt, s.rcv.nxt)], false)
    else if g.rst then Outcome(ResetStage(s), [], false)
    else if g.syn then Outcome(s.(state := Close), [], false)
    else if !g.ack then Outcome(s, [], false)
    else if BadAck(s, g) then Outcome(s, [Reply(RstBit, g.ackNo, 0)], false)
    else
      var o1 := TextStage(UrgStage(AckStage(s, g), g), g);
      var o2 := FinStage(o1.sock, g);
      Outcome(o2.sock, o1.replies + o2.replies, o1.signal)
  }

  /** The numbers of a SYN, and its acknowledgment. */
  function SynTaken<P>(s: Sock<P>, g: Seg<P>): Sock<P> {
    s.(rcv := s.rcv.(nxt := Plus(g.sq, 1)), irs := g.sq, una := if g.ack then g.ackNo else s.una)
  }

  /** state_tcp_syn_sent */
  function InSynSent<P>(s: Sock<P>, g: Seg<P>): Outcome<P> {
    if g.ack && !(s.iss < g.ackNo <= s.nxt) then
      Outcome(s, if g.rst then [] else [Reply(RstBit, g.ackNo, 0)], false)
    else if g.rst then Outcome(if g.ack then s.(state := Close) else s, [], false)
    else if !g.syn then Outcome(s, [], false)
    else
      var s1 := SynTaken(s, g);
      if s1.una > s1.iss then
        Outcome(s1.(state := Established, on := OnEstablished(s1.on)), [Reply(AckBit, s1.nxt, s1.rcv.nxt)], false)
      else
        Outcome(s1.(state := SynReceived, on := s1.on.(synRecved := true)),
          [Reply(SynAckBits, s1.iss, s1.rcv.nxt)], false)
  }

  /** The socket that state_tcp_listen makes for a SYN, with the initial number `iss`. */
  function Child<P>(iss: Word, g: Seg<P>): Sock<P> {
    Sock(SynReceived, NOWHERE.(synRecved := true), true, iss, g.sq, iss, Plus(iss, 1), g.win, 0, 0, SIZE, 0,
      Receiver(Plus(g.sq, 1), Blanks(SIZE), []), [])
  }

  /** The socket that xy_syn_socket makes */
  function NewSocket<P>(): Sock<P> {
    Sock(Close, NOWHERE, false, 0, 0, 0, 0, 0, 0, 0, 0, 0, Receiver(0, Blanks(SIZE), []), [])
  }

  predicate Welcomes<P>(g: Seg<P>) {
    !g.rst && !g.ack && g.syn
  }

  /** tcp_recv, for the socket that was looked up; a listener itself never changes. */
  ghost function OnSegment<P>(s: Sock<P>, g: Seg<P>, iss: Word): Outcome<P>
    requires SockOk(s)
  {
    match s.state
    case Close =>
      Outcome(s, if g.rst then [] else if g.ack then [Reply(RstBit, g.ackNo, 0)]
        else [Reply(RstAckBits, 0, Plus(g.sq, 1))], false)
    case Listen =>
      Outcome(s, if g.rst then [] else if g.ack then [Reply(RstBit, g.ackNo, 0)]
        else if g.syn then [Reply(SynAckBits, iss, Plus(g.sq, 1))] else [], false)
    case SynSent => InSynSent(s, g)
    case _ => Otherwise(s, g)
  }

  /** When a socket gets to the FIN stage, the two arms for a SYN-RECEIVED socket and for an
      acknowledged FIN in FIN-WAIT-1 cannot be taken. */
  lemma FinArmsAreDead<P>(s: Sock<P>, g: Seg<P>)
    requires SockOk(s) && Later(s.state) && !BadAck(s, g)
    ensures var t := TextStage(UrgStage(AckStage(s, g), g), g).sock;
      t.state != SynReceived && (t.state == FinWait1 ==> g.ackNo != t.nxt)
  {
  }

  // ----- the user's calls, when they are not refused

  function Listening<P>(s: Sock<P>): Sock<P> {
    s.(state := Listen, on := s.on.(listeners := true))
  }

  function Connecting<P>(s: Sock<P>): Sock<P> {
    s.(pending := s.pending + [SynBuf])
  }

  function Closed<P>(s: Sock<P>): Sock<P> {
    s.(state := FinWait1, on := s.on.(established := false), pending := s.pending + [FinBuf])
  }

  // ----- the same on a socket in memory

  class TcpSocket<P(0)> {
    var state: State
    var on: Lists
    var passive: bool
    var iss: Word
    var irs: Word
    var sndUna: Word
    var sndNxt: Word
    var sndWnd: nat
    var sndWl1: Word
    var sndWl2: Word
    var rcvNxt: Word
    var rcvWnd: Word
    var rcvUp: nat
    var rcvBufList: seq<Segment<P>>
    var sndBufList: seq<Waiting<P>>
    const rcvWndBuffer: RcvWindow<Segment<P>>

    ghost predicate Valid()
      reads this, rcvWndBuffer
    {
      rcvWndBuffer.Valid()
    }

    ghost function View(): (s: Sock<P>)
      requires Valid()
      reads this, rcvWndBuffer, rcvWndBuffer.buffer
      ensures SockOk(s)
    {
      Sock(state, on, passive, iss, irs, sndUna, sndNxt, sndWnd, sndWl1, sndWl2, rcvWnd, rcvUp,
        Receiver(rcvNxt, rcvWndBuffer.View(), rcvBufList), sndBufList)
    }

    /** xy_syn_socket */
    constructor ()
      ensures Valid() && fresh(rcvWndBuffer) && fresh(rcvWndBuffer.buffer)
      ensures View() == NewSocket()
    {
      state, on, passive, iss, irs := Close, NOWHERE, false, 0, 0;
      sndUna, sndNxt, sndWnd, sndWl1, sndWl2 := 0, 0, 0, 0, 0;
      rcvNxt, rcvWnd, rcvUp, rcvBufList, sndBufList := 0, 0, 0, [], [];
      rcvWndBuffer := new RcvWindow<Segment<P>>();
    }

    /** The socket and control block set up in state_tcp_listen */
    constructor Accepted(iss: Word, g: Seg<P>)
      ensures Valid() && fresh(rcvWndBuffer) && fresh(rcvWndBuffer.buffer)
      ensures View() == Child(iss, g)
    {
      state, on, passive := SynReceived, NOWHERE.(synRecved := true), true;
      sndUna, sndNxt, sndWnd, this.iss := iss, (iss + 1) % SPACE, g.win, iss;
      sndWl1, sndWl2 := 0, 0;
      rcvNxt, rcvWnd, rcvUp, irs := (g.sq + 1) % SPACE, SIZE, 0, g.sq;
      rcvBufList, sndBufList := [], [];
      rcvWndBuffer := new RcvWindow<Segment<P>>();
    }

    /** tcp_ack_window_update */
    method AckWindowUpdate(g: Seg<P>)
      requires Valid()
      modifies this`sndUna, this`sndWnd, this`sndWl1, this`sndWl2
      ensures Valid() && View() == AckUpdated(old(View()), g)
    {
      if sndUna < g.ackNo && g.ackNo <= sndNxt {
        sndUna := g.ackNo;
        if sndWl1 < g.sq || (sndWl1 == g.sq && sndWl2 <= g.ackNo) {
          sndWnd := g.win;
          sndWl1 := g.sq;
          sndWl2 := g.ackNo;
        }
      }
    }

    /** Off the list of half-open sockets, ESTABLISHED, and on the list of the established ones */
    method Establish()
      requires Valid()
      modifies this`state, this`on
      ensures Valid() && View() == old(View()).(state := Established, on := OnEstablished(old(on)))
    {
      on := on.(synRecved := false);
      state := Established;
      on := on.(established := true);
    }

    /** The fifth stage's switch; false when the segment is answered with a reset. */
    method CheckAck(g: Seg<P>) returns (ok: bool, replies: seq<Reply>)
      requires Valid() && Later(state)
      modifies this`state, this`on, this`sndUna, this`sndWnd, this`sndWl1, this`sndWl2
      ensures Valid() && ok == !BadAck(old(View()), g)
      ensures if ok then View() == AckStage(old(View()), g) && replies == []
        else View() == old(View()) && replies == [Reply(RstBit, g.ackNo, 0)]
    {
      hide AckUpdated, RcvWindow.View;
      AckUpdatedKeeps(View().(on := OnEstablished(on)), g, Established, NOWHERE);
      AckUpdatedKeeps(View(), g, Established, OnEstablished(on));
      ok, replies := true, [];
      match state
      case SynReceived =>
        if sndUna > g.ackNo || g.ackNo > sndNxt {
          return false, [Reply(RstBit, g.ackNo, 0)];
        }
        Establish();
        AckWindowUpdate(g);
      case Established => AckWindowUpdate(g);
      case FinWait1 =>
        AckWindowUpdate(g);
        if g.ackNo == sndNxt {
          state := FinWait2;
        }
      case FinWait2 => AckWindowUpdate(g);
      case CloseWait =>
        AckWindowUpdate(g);
        if g.ackNo == sndNxt {
          state := TimeWait;
        }
      case Closing => AckWindowUpdate(g);
      case LastAck =>
        if g.ackNo == sndNxt {
          state := Close;
        }
      case _ =>
    }

    /** The sixth stage */
    method CheckUrg(g: Seg<P>)
      requires Valid()
      modifies this`rcvUp
      ensures Valid() && View() == UrgStage(old(View()), g)
    {
      if g.urg {
        match state
        case Established | FinWait1 | FinWait2 => rcvUp := if rcvUp > g.urp then rcvUp else g.urp;
        case _ =>
      }
    }

    /** The seventh stage, with state_tcp_handle_data */
    method ProcessText(g: Seg<P>) returns (replies: seq<Reply>, signal: bool)
      requires Valid()
      modifies this`rcvNxt, this`rcvBufList, rcvWndBuffer`head, rcvWndBuffer.buffer
      ensures Valid() && Outcome(View(), replies, signal) == TextStage(old(View()), g)
    {
      hide Arrived;
      replies, signal := [], false;
      match state
      case Established | FinWait1 | FinWait2 =>
        if g.data.Some? {
          signal := true;
          rcvNxt, rcvBufList := UpdateReceiver(rcvWndBuffer, rcvNxt, rcvBufList, Segment(g.sq, g.data.value));
          replies := [Reply(AckBit, sndNxt, rcvNxt)];
        }
      case _ =>
    }

    /** The eighth stage.  A SYN-RECEIVED socket cannot get here (xy_tcp_state_others.h:224),
        nor one in FIN-WAIT-1 whose FIN is acknowledged (:233). */
    method ProcessFin(g: Seg<P>) returns (replies: seq<Reply>)
      requires Valid()
      requires state != SynReceived && (state == FinWait1 ==> g.ackNo != sndNxt)
      modifies this`state, this`on, this`rcvNxt
      ensures Valid() && Outcome(View(), replies, false) == FinStage(old(View()), g)
    {
      hide RcvWindow.View;
      ghost var s := View();
      if g.fin {
        match state {
          case Close | Listen | SynSent => return [];
          case Established =>
            on := on.(established := false);
            state := CloseWait;
          case FinWait1 => state := Closing;
          case FinWait2 => state := TimeWait;
          case _ =>
        }
        assert View() == s.(state := FinState(s.state), on := AfterFin(s));
        rcvNxt := (g.sq + 1) % SPACE;
        return [Reply(AckBit, sndNxt, rcvNxt)];
      }
      return [];
    }

    /** state_tcp_otherwise */
    method OnLater(g: Seg<P>) returns (replies: seq<Reply>, signal: bool)
      requires Valid() && Later(state)
      modifies this`state, this`on, this`sndUna, this`sndWnd, this`sndWl1, this`sndWl2
      modifies this`rcvUp, this`rcvNxt, this`rcvBufList, rcvWndBuffer`head, rcvWndBuffer.buffer
      ensures Valid() && Outcome(View(), replies, signal) == Otherwise(old(View()), g)
    {
      hide AckUpdated, Arrived, AckStage, UrgStage, TextStage, FinStage;
      ghost var s := View();
      replies, signal := [], false;
      var acceptable;
      if rcvWnd == 0 {
        acceptable := g.ack || g.urg || g.rst;
      } else {
        acceptable := Minus(g.sq, rcvNxt) <= rcvWnd;
      }
      if !acceptable {
        return if g.rst then [] else [Reply(AckBit, sndNxt, rcvNxt)], false;
      }
      if g.rst {
        if state == SynReceived && passive {
          state := Listen;
          on := on.(synRecved := false);
        } else {
          state := Close;
        }
        return;
      }
      if g.syn {
        state := Close;
        return;
      }
      if !g.ack {
        return;
      }
      var ok;
      ok, replies := CheckAck(g);
      if !ok {
        return;
      }
      CheckUrg(g);
      var more;
      replies, signal := ProcessText(g);
      FinArmsAreDead(s, g);
      more := ProcessFin(g);
      replies := replies + more;
    }

    /** The SYN stage of state_tcp_syn_sent */
    method TakeSyn(g: Seg<P>) returns (replies: seq<Reply>)
      requires Valid() && state == SynSent && g.syn && !g.rst && (g.ack ==> iss < g.ackNo <= sndNxt)
      modifies this`state, this`on, this`rcvNxt, this`irs, this`sndUna
      ensures Valid() && Outcome(View(), replies, false) == InSynSent(old(View()), g)
    {
      hide RcvWindow.View;
      ghost var s := View();
      rcvNxt := (g.sq + 1) % SPACE;
      irs := g.sq;
      if g.ack {
        sndUna := g.ackNo;
      }
      assert View() == SynTaken(s, g);
      if sndUna > iss {
        Establish();
        return [Reply(AckBit, sndNxt, rcvNxt)];
      } else {
        state := SynReceived;
        on := on.(synRecved := true);
        return [Reply(SynAckBits, iss, rcvNxt)];
      }
    }

    /** state_tcp_syn_sent */
    method OnSynSent(g: Seg<P>) returns (replies: seq<Reply>)
      requires Valid() && state == SynSent
      modifies this`state, this`on, this`rcvNxt, this`irs, this`sndUna
      ensures Valid() && Outcome(View(), replies, false) == InSynSent(old(View()), g)
    {
      hide RcvWindow.View;
      if g.ack {
        if g.ackNo <= iss || g.ackNo > sndNxt {
          return if g.rst then [] else [Reply(RstBit, g.ackNo, 0)];
        }
      }
      if g.rst {
        if g.ack {
          state := Close;
        }
        return [];
      }
      if g.syn {
        replies := TakeSyn(g);
        return;
      }
      return [];
    }

    /** state_tcp_listen; `iss` is what random_generate_iss returned */
    method OnListen(g: Seg<P>, iss: Word) returns (replies: seq<Reply>, child: TcpSocket?<P>)
      requires Valid() && state == Listen
      ensures child != null <==> Welcomes(g)
      ensures child != null ==> fresh(child) && child.Valid() && child.View() == Child(iss, g)
      ensures child != null ==> child.state == SynReceived && child.passive && child.on == Lists(false, true, false)
      ensures child != null ==> child.iss == child.sndUna == iss && child.sndNxt == (iss + 1) % SPACE
      ensures child != null ==> child.irs == g.sq && child.rcvNxt == (g.sq + 1) % SPACE && child.rcvWnd == SIZE
      ensures child != null ==> child.sndWnd == g.win && child.rcvBufList == [] && child.sndBufList == []
      ensures Outcome(View(), replies, false) == OnSegment(View(), g, iss)
    {
      child := null;
      if g.rst {
        return [], null;
      }
      if g.ack {
        return [Reply(RstBit, g.ackNo, 0)], null;
      }
      if g.syn {
        child := new TcpSocket.Accepted(iss, g);
        return [Reply(SynAckBits, child.iss, child.rcvNxt)], child;
      }
      return [], null;
    }

    /** tcp_recv's switch */
    method OnArrival(g: Seg<P>, iss: Word) returns (replies: seq<Reply>, signal: bool, child: TcpSocket?<P>)
      requires Valid()
      modifies this`state, this`on, this`sndUna, this`sndWnd, this`sndWl1, this`sndWl2, this`irs
      modifies this`rcvUp, this`rcvNxt, this`rcvBufList, rcvWndBuffer`head, rcvWndBuffer.buffer
      ensures Valid() && Outcome(View(), replies, signal) == OnSegment(old(View()), g, iss)
      ensures child != null <==> old(state) == Listen && Welcomes(g)
      ensures child != null ==> fresh(child) && child.Valid() && child.View() == Child(iss, g)
    {
      hide Otherwise, InSynSent;
      signal, child := false, null;
      match state
      case Close =>
        replies := if g.rst then [] else if g.ack then [Reply(RstBit, g.ackNo, 0)]
          else [Reply(RstAckBits, 0, (g.sq + 1) % SPACE)];
      case Listen => replies, child := OnListen(g, iss);
      case SynSent => replies := OnSynSent(g);
      case _ => replies, signal := OnLater(g);
    }

    /** xy_syn_listen */
    method ListenCall() returns (ok: bool)
      requires Valid()
      modifies this`state, this`on
      ensures Valid() && ok == (old(state) == Close)
      ensures View() == if ok then Listening(old(View())) else old(View())
      ensures ok ==> state == Listen && on == old(on).(listeners := true)
    {
      if state != Close {
        return false;
      }
      state := Listen;
      on := on.(listeners := true);
      return true;
    }

    /** xy_syn_connect: it queues a SYN and leaves the state CLOSED, so that nothing in the code
        ever enters SYN-SENT. */
    method ConnectCall() returns (ok: bool)
      requires Valid()
      modifies this`sndBufList
      ensures Valid() && ok == (old(state) == Close)
      ensures View() == if ok then Connecting(old(View())) else old(View())
      ensures sndBufList == old(sndBufList) + if ok then [SynBuf] else []
    {
      if state != Close {
        return false;
      }
      sndBufList := sndBufList + [SynBuf];
      return true;
    }

    /** xy_syn_close: the FIN goes to the end of snd_buf_list */
    method CloseCall() returns (ok: bool)
      requires Valid()
      modifies this`state, this`on, this`sndBufList
      ensures Valid() && ok == (old(state) == Established)
      ensures View() == if ok then Closed(old(View())) else old(View())
      ensures ok ==> state == FinWait1 && on == old(on).(established := false)
      ensures sndBufList == old(sndBufList) + if ok then [FinBuf] else []
    {
      if state != Established {
        return false;
      }
      on := on.(established := false);
      state := FinWait1;
      sndBufList := sndBufList + [FinBuf];
      return true;
    }
  }

  // ----- section 3.9, segment by segment, without the stages

  /** From SYN-RECEIVED on, a segment outside the window changes nothing, and is answered with an
      acknowledgment unless it is a reset. */
  lemma OutsideWindow<P>(s: Sock<P>, g: Seg<P>, iss: Word)
    requires SockOk(s) && s.state != Close && s.state != Listen && s.state != SynSent
    requires if s.rcvWnd == 0 then !g.ack && !g.urg && !g.rst else (g.sq - s.rcv.nxt) % SPACE > s.rcvWnd
    ensures OnSegment(s, g, iss) == Outcome(s, if g.rst then [] else [Reply(AckBit, s.nxt, s.rcv.nxt)], false)
  {
  }

  /** A segment that the window lets through. */
  predicate InWindow<P>(s: Sock<P>, g: Seg<P>) {
    && s.state != Close && s.state != Listen && s.state != SynSent
    && if s.rcvWnd == 0 then g.ack || g.urg || g.rst else (g.sq - s.rcv.nxt) % SPACE <= s.rcvWnd
  }

  /** One with RST, SYN, or without ACK: a reset takes a passive half-open socket back to LISTEN and
      off its list; anything else that ends, ends in CLOSED; and a segment without ACK does nothing. */
  lemma WithoutStages<P>(s: Sock<P>, g: Seg<P>, iss: Word)
    requires SockOk(s) && InWindow(s, g) && (g.rst || g.syn || !g.ack)
    ensures OnSegment(s, g, iss) == Outcome(
      if g.rst && s.state == SynReceived && s.passive then s.(state := Listen, on := s.on.(synRecved := false))
      else if g.rst || g.syn then s.(state := Close)
      else s, [], false)
  {
  }

  /** An acknowledgment out of range is turned down in SYN-RECEIVED. */
  lemma HalfOpenBadAck<P>(s: Sock<P>, g: Seg<P>, iss: Word)
    requires SockOk(s) && InWindow(s, g) && !g.rst && !g.syn && g.ack
    requires s.state == SynReceived && (g.ackNo < s.una || g.ackNo > s.nxt)
    ensures OnSegment(s, g, iss) == Outcome(s, [Reply(RstBit, g.ackNo, 0)], false)
  {
  }

  /** One that gets to the ACK stage and beyond. */
  predicate GetsThrough<P>(s: Sock<P>, g: Seg<P>) {
    && InWindow(s, g) && !g.rst && !g.syn && g.ack
    && (s.state == SynReceived ==> s.una <= g.ackNo <= s.nxt)
  }

  lemma ThroughIsLater<P>(s: Sock<P>, g: Seg<P>, iss: Word)
    requires SockOk(s) && GetsThrough(s, g)
    ensures Later(s.state) && !BadAck(s, g)
    ensures var o1 := TextStage(UrgStage(AckStage(s, g), g), g); var o2 := FinStage(o1.sock, g);
      OnSegment(s, g, iss) == Outcome(o2.sock, o1.replies + o2.replies, o1.signal)
  {
    hide AckStage, UrgStage, TextStage, FinStage;
  }

  lemma StagesKeepRest<P>(s: Sock<P>, g: Seg<P>)
    requires SockOk(s)
    ensures var s' := FinStage(TextStage(UrgStage(s, g), g).sock, g).sock;
      && s'.pending == s.pending && s'.passive == s.passive && s'.irs == s.irs && s'.rcvWnd == s.rcvWnd
      && s'.iss == s.iss && s'.nxt == s.nxt && SameNumbers(s, s')
  {
    hide Arrived;
  }

  /** Its acknowledgment: in every state but LAST-ACK and TIME-WAIT it moves snd_una when it is of
      something in flight, and then the window is taken exactly when the segment is not older. */
  lemma AckCounts<P>(s: Sock<P>, g: Seg<P>, iss: Word)
    requires SockOk(s) && GetsThrough(s, g)
    ensures var s' := OnSegment(s, g, iss).sock;
      && s'.iss == s.iss && s'.nxt == s.nxt && s'.pending == s.pending && s'.passive == s.passive
      && s'.irs == s.irs && s'.rcvWnd == s.rcvWnd
      && if s.state != LastAck && s.state != TimeWait && s.una < g.ackNo <= s.nxt then
        && s'.una == g.ackNo
        && (if s.wl1 < g.sq || (s.wl1 == g.sq && s.wl2 <= g.ackNo)
            then s'.wnd == g.win && s'.wl1 == g.sq && s'.wl2 == g.ackNo
            else s'.wnd == s.wnd && s'.wl1 == s.wl1 && s'.wl2 == s.wl2)
      else s'.una == s.una && s'.wnd == s.wnd && s'.wl1 == s.wl1 && s'.wl2 == s.wl2
  {
    hide Acceptable, UrgStage, TextStage, FinStage;
    ThroughIsLater(s, g, iss);
    StagesKeepRest(AckStage(s, g), g);
  }

  /** Where it leads, with and without a FIN, when it acknowledges everything and when not. */
  lemma StateReached<P>(s: Sock<P>, g: Seg<P>, iss: Word)
    requires SockOk(s) && GetsThrough(s, g)
    ensures var b, all := OnSegment(s, g, iss).sock.state, g.ackNo == s.nxt;
      match s.state {
        case SynReceived | Established => b == if g.fin then CloseWait else Established
        case FinWait1 => b == if g.fin then (if all then TimeWait else Closing) else if all then FinWait2 else FinWait1
        case FinWait2 => b == if g.fin then TimeWait else FinWait2
        case CloseWait => b == if all then TimeWait else CloseWait
        case LastAck => b == if all then Close else LastAck
        case _ => b == s.state
      }
    ensures OnSegment(s, g, iss).sock.on ==
      if s.state == SynReceived then s.on.(synRecved := false, established := !g.fin)
      else if s.state == Established && g.fin then s.on.(established := false)
      else s.on
  {
    hide Arrived, Acceptable, AckUpdated;
    ThroughIsLater(s, g, iss);
    AckUpdatedKeeps(s, g, s.state, s.on);
  }

  lemma StagesAfterAck<P>(s: Sock<P>, g: Seg<P>)
    requires SockOk(s)
    ensures var o1 := TextStage(UrgStage(s, g), g); var o2 := FinStage(o1.sock, g);
      var open := s.state in {Established, FinWait1, FinWait2};
      var text, fin := open && g.data.Some?, g.fin && s.state != Close && s.state != Listen && s.state != SynSent;
      var r := if text then Arrived(s.rcv, Segment(g.sq, g.data.value)) else s.rcv;
      && o2.sock.rcv == (if fin then r.(nxt := (g.sq + 1) % SPACE) else r)
      && o2.sock.rcvUp == (if open && g.urg && g.urp > s.rcvUp then g.urp else s.rcvUp)
      && o1.replies + o2.replies == (if text then [Reply(AckBit, s.nxt, r.nxt)] else [])
          + (if fin then [Reply(AckBit, s.nxt, (g.sq + 1) % SPACE)] else [])
      && o1.signal == text
  {
    hide Arrived;
  }

  /** What becomes of its text, its urgent pointer and its FIN, and how they are answered. */
  lemma TextAndFin<P>(s: Sock<P>, g: Seg<P>, iss: Word)
    requires SockOk(s) && GetsThrough(s, g)
    ensures var o := OnSegment(s, g, iss);
      var open := s.state in {SynReceived, Established, FinWait1, FinWait2};
      var text := open && g.data.Some?;
      var fin := g.fin && !(s.state == LastAck && g.ackNo == s.nxt);
      var r := if text then Arrived(s.rcv, Segment(g.sq, g.data.value)) else s.rcv;
      && o.sock.rcv == (if fin then r.(nxt := (g.sq + 1) % SPACE) else r)
      && o.sock.rcvUp == (if open && g.urg && g.urp > s.rcvUp then g.urp else s.rcvUp)
      && o.replies == (if text then [Reply(AckBit, s.nxt, r.nxt)] else [])
          + (if fin then [Reply(AckBit, s.nxt, (g.sq + 1) % SPACE)] else [])
      && o.signal == text
  {
    hide Arrived, Acceptable, AckUpdated, UrgStage, TextStage, FinStage;
    ThroughIsLater(s, g, iss);
    AckUpdatedKeeps(s, g, s.state, s.on);
    StagesAfterAck(AckStage(s, g), g);
  }

  /** A segment for a socket in SYN-SENT. */
  lemma InSynSentSegment<P>(s: Sock<P>, g: Seg<P>, iss: Word)
    requires SockOk(s) && s.state == SynSent
    ensures var o := OnSegment(s, g, iss);
      var bad := g.ack && (g.ackNo <= s.iss || g.ackNo > s.nxt);
      && (bad || g.rst ==> o.replies == if g.rst then [] else [Reply(RstBit, g.ackNo, 0)])
      && (bad || (g.rst && !g.ack) || (!g.rst && !g.syn) ==> o.sock == s)
      && (!bad && g.rst && g.ack ==> o.sock == s.(state := Close))
      && (!bad && !g.rst && !g.syn ==> o.replies == [])
      && (!bad && !g.rst && g.syn ==>
        var una, nxt := if g.ack then g.ackNo else s.una, (g.sq + 1) % SPACE;
        var done := una > s.iss;
        && o.sock == s.(state := if done then Established else SynReceived,
             on := if done then s.on.(synRecved := false, established := true) else s.on.(synRecved := true),
             rcv := s.rcv.(nxt := nxt), irs := g.sq, una := una)
        && o.replies == [if done then Reply(AckBit, s.nxt, nxt) else Reply(SynAckBits, s.iss, nxt)])
  {
  }

  /** A segment for a socket in CLOSED or LISTEN leaves it alone. */
  lemma NotConnected<P>(s: Sock<P>, g: Seg<P>, iss: Word)
    requires SockOk(s) && (s.state == Close || s.state == Listen)
    ensures OnSegment(s, g, iss).sock == s && !OnSegment(s, g, iss).signal
    ensures OnSegment(s, g, iss).replies ==
      if g.rst then []
      else if g.ack then [Reply(RstBit, g.ackNo, 0)]
      else if s.state == Close then [Reply(RstAckBits, 0, (g.sq + 1) % SPACE)]
      else if g.syn then [Reply(SynAckBits, iss, (g.sq + 1) % SPACE)] else []
  {
  }

  // ----- edges of the state diagram

  /** The edges that segments take: those of the diagram in section 3.2 but for CLOSING to
      TIME-WAIT, which the code never takes (xy_tcp_state_others.h:170-172), and CLOSE-WAIT to
      TIME-WAIT, which it adds. */
  predicate Edge(a: State, b: State) {
    match a
    case SynSent => b == SynReceived || b == Established
    case SynReceived => b == Established
    case Established => b == CloseWait
    case FinWait1 => b == FinWait2 || b == Closing
    case FinWait2 => b == TimeWait
    case LastAck => b == Close
    case CloseWait => b == TimeWait
    case _ => false
  }

  /** A reset ends the connection; a passive open that is not established goes back to LISTEN. */
  predicate ResetEdge(a: State, passive: bool, b: State) {
    if a == SynReceived && passive then b == Listen || b == Close else a != Listen && b == Close
  }

  /** A segment keeps the state, takes one edge of the diagram, or two when both its ACK and
      its FIN take effect, or a reset edge when it carries RST or SYN. */
  lemma SegmentEdges<P>(s: Sock<P>, g: Seg<P>, iss: Word)
    requires SockOk(s)
    ensures var a, b := s.state, OnSegment(s, g, iss).sock.state;
      || b == a
      || Edge(a, b)
      || (g.ack && g.fin && exists m :: Edge(a, m) && Edge(m, b))
      || ((g.rst || g.syn) && ResetEdge(a, s.passive, b))
  {
    hide Arrived;
    if Later(s.state) && !g.rst && !g.syn && g.ack && Acceptable(s, g) && !BadAck(s, g) {
      var m := AckedState(s, g);
      assert m == s.state || Edge(s.state, m);
      var b := OnSegment(s, g, iss).sock.state;
      assert b == m || (g.fin && b == FinState(m) && (b == m || Edge(m, b)));
    }
  }

  /** So a socket in CLOSING or TIME-WAIT is left only by an acceptable RST or SYN, for CLOSED. */
  lemma ClosingIsLeftByReset<P>(s: Sock<P>, g: Seg<P>, iss: Word)
    requires SockOk(s) && (s.state == Closing || s.state == TimeWait)
    ensures var b := OnSegment(s, g, iss).sock.state;
      && (b != s.state <==> Acceptable(s, g) && (g.rst || g.syn))
      && (b != s.state ==> b == Close)
  {
    hide Arrived;
    if Acceptable(s, g) && !g.rst && !g.syn && g.ack {
      assert AckedState(s, g) == s.state;
    }
  }

  /** Whatever reaches the receive window or the user's list is signalled; a signal comes with
      text and with an acknowledgment. */
  ghost predicate Signalled<P>(r: Receiver<P>, g: Seg<P>, o: Outcome<P>)
    requires |r.view| == SIZE
  {
    if o.signal then
      && g.data.Some? && o.replies != [] && o.replies[0].control == AckBit
      && r.delivered <= o.sock.rcv.delivered
      && o.sock.rcv.view == Arrived(r, Segment(g.sq, g.data.value)).view
    else o.sock.rcv.delivered == r.delivered && o.sock.rcv.view == r.view
  }

  lemma StagesSignal<P>(s: Sock<P>, g: Seg<P>)
    requires SockOk(s)
    ensures var o1 := TextStage(UrgStage(s, g), g); var o2 := FinStage(o1.sock, g);
      Signalled(s.rcv, g, Outcome(o2.sock, o1.replies + o2.replies, o1.signal))
  {
    hide Arrived;
    ReceiverGrows(s.rcv, g);
  }

  lemma ReceiverGrows<P>(r: Receiver<P>, g: Seg<P>)
    requires |r.view| == SIZE
    ensures g.data.Some? ==> r.delivered <= Arrived(r, Segment(g.sq, g.data.value)).delivered
  {
  }

  lemma LaterSignals<P>(s: Sock<P>, g: Seg<P>)
    requires SockOk(s) && Later(s.state)
    ensures Signalled(s.rcv, g, Otherwise(s, g))
  {
    hide Arrived, Acceptable, AckUpdated, BadAck, UrgStage, TextStage, FinStage;
    AckUpdatedKeeps(s, g, s.state, s.on);
    StagesSignal(AckStage(s, g), g);
  }

  lemma TextIsSignalled<P>(s: Sock<P>, g: Seg<P>, iss: Word)
    requires SockOk(s)
    ensures Signalled(s.rcv, g, OnSegment(s, g, iss))
  {
    hide Arrived, Otherwise;
    if Later(s.state) {
      LaterSignals(s, g);
    }
  }

  /** A segment with RST is never answered, and no answer to anything but a SYN carries SYN. */
  lemma ResetsAreNotAnswered<P>(s: Sock<P>, g: Seg<P>, iss: Word)
    requires SockOk(s)
    ensures g.rst ==> OnSegment(s, g, iss).replies == []
    ensures forall r :: r in OnSegment(s, g, iss).replies && r.control == SynAckBits ==> g.syn
  {
    hide Arrived;
  }

  /** From SYN-RECEIVED on, a segment without ACK, RST and SYN changes nothing, whatever text or
      FIN it carries.  xy_syn_send and xy_syn_close build such segments. */
  lemma WithoutAckIgnored<P>(s: Sock<P>, g: Seg<P>, iss: Word)
    requires SockOk(s) && Later(s.state) && !g.ack && !g.rst && !g.syn
    ensures OnSegment(s, g, iss).sock == s
    ensures OnSegment(s, g, iss).replies == if Acceptable(s, g) then [] else [Reply(AckBit, s.nxt, s.rcv.nxt)]
  {
    hide Arrived;
  }

  /** Every acknowledgment says what the socket will send next, and the last one what it expects next. */
  lemma AcksAreCurrent<P>(s: Sock<P>, g: Seg<P>, iss: Word)
    requires SockOk(s)
    ensures var o := OnSegment(s, g, iss);
      && (forall r :: r in o.replies && r.control == AckBit ==> r.sq == o.sock.nxt)
      && (o.replies != [] && o.replies[|o.replies| - 1].control == AckBit ==>
           o.replies[|o.replies| - 1].ackNo == o.sock.rcv.nxt)
  {
    hide Arrived;
  }

  // ----- runs of segments change the state boundedly often

  /** How many changes are left; LISTEN and CLOSED stay for ever. */
  function Rank(state: State): nat {
    match state
    case SynSent => 5
    case SynReceived => 4
    case Established => 3
    case FinWait1 => 3
    case FinWait2 | CloseWait | Closing | LastAck => 2
    case TimeWait => 1
    case Listen | Close => 0
  }

  lemma SegmentLowersRank<P>(s: Sock<P>, g: Seg<P>, iss: Word)
    requires SockOk(s)
    ensures SockOk(OnSegment(s, g, iss).sock)
    ensures var b := OnSegment(s, g, iss).sock.state;
      b != s.state ==> Rank(b) < Rank(s.state)
  {
    hide OnSegment;
    SegmentEdges(s, g, iss);
    SegmentNumbers(s, g, iss);
  }

  ghost function Changes<P>(s: Sock<P>, gs: seq<Seg<P>>, iss: Word): nat
    requires SockOk(s)
    decreases |gs|
  {
    if gs == [] then 0 else
      var s' := OnSegment(s, gs[0], iss).sock;
      SegmentLowersRank(s, gs[0], iss);
      (if s'.state == s.state then 0 else 1) + Changes(s', gs[1..], iss)
  }

  /** However many segments arrive, they change the state at most five times. */
  lemma {:induction false} ChangesAreBounded<P>(s: Sock<P>, gs: seq<Seg<P>>, iss: Word)
    requires SockOk(s)
    ensures Changes(s, gs, iss) <= Rank(s.state) <= 5
    decreases |gs|
  {
    if gs != [] {
      SegmentLowersRank(s, gs[0], iss);
      ChangesAreBounded(OnSegment(s, gs[0], iss).sock, gs[1..], iss);
    }
  }

  // ----- the send numbers over runs of segments, sends and user calls

  datatype Event<+P> =
    | Arrival(g: Seg<P>, iss: Word) | Send(n: nat)
    | CallListen | CallConnect | CallSend(texts: seq<P>) | CallClose

  function Texts<P>(texts: seq<P>): seq<Waiting<P>> {
    seq(|texts|, i requires 0 <= i < |texts| => TextBuf(texts[i]))
  }

  /** What can happen to a socket that segments and sends reach in every state; the send numbers
      must not wrap round. */
  ghost predicate Next<P>(s: Sock<P>, e: Event<P>, s': Sock<P>) {
    && SockOk(s)
    && match e {
      case Arrival(g, iss) => s' == OnSegment(s, g, iss).sock
      case Send(n) =>
        n <= |s.pending| && s.nxt + n < SPACE && s' == s.(nxt := s.nxt + n, pending := s.pending[n..])
      case CallListen => s.state == Close && s' == Listening(s)
      case CallConnect => s.state == Close && s' == Connecting(s)
      case CallSend(texts) => s.state == Established && s' == s.(pending := s.pending + Texts(texts))
      case CallClose => s.state == Established && s' == Closed(s)
    }
  }

  ghost predicate Step<P(!new)>(s: Sock<P>, s': Sock<P>) {
    exists e :: Next(s, e, s')
  }

  predicate NumbersOk<P>(s: Sock<P>) {
    s.iss <= s.una <= s.nxt && (s.state == SynSent ==> s.una == s.iss)
  }

  /** (wl1, wl2) is not after (wl1', wl2'), read as a pair. */
  predicate NotAfter(wl1: Word, wl2: Word, wl1': Word, wl2': Word) {
    wl1 < wl1' || (wl1 == wl1' && wl2 <= wl2')
  }

  ghost predicate Grows<P>(s: Sock<P>, s': Sock<P>) {
    s.una <= s'.una && NotAfter(s.wl1, s.wl2, s'.wl1, s'.wl2)
  }

  /** A new socket has its SYN, and nothing else, in flight: random_generate_iss stays below 2^31. */
  lemma ChildNumbers<P>(iss: Word, g: Seg<P>)
    requires iss < 0x8000_0000
    ensures SockOk(Child(iss, g)) && NumbersOk(Child(iss, g)) && Child(iss, g).nxt == Child(iss, g).una + 1
  {
  }

  ghost predicate SameNumbers<P>(s: Sock<P>, s': Sock<P>) {
    s'.una == s.una && s'.wnd == s.wnd && s'.wl1 == s.wl1 && s'.wl2 == s.wl2
  }

  lemma StagesKeepNumbers<P>(s: Sock<P>, g: Seg<P>)
    requires SockOk(s) && s.state != SynSent
    ensures var s' := FinStage(TextStage(UrgStage(s, g), g).sock, g).sock;
      && s'.iss == s.iss && s'.nxt == s.nxt && SockOk(s') && s'.state != SynSent && SameNumbers(s, s')
  {
    hide Arrived;
  }

  lemma LaterNumbers<P>(s: Sock<P>, g: Seg<P>)
    requires SockOk(s) && Later(s.state)
    ensures var s' := Otherwise(s, g).sock;
      && s'.iss == s.iss && s'.nxt == s.nxt && SockOk(s') && s'.state != SynSent
      && (SameNumbers(s, s') || SameNumbers(AckUpdated(s, g), s'))
  {
    hide Acceptable, AckUpdated, BadAck, UrgStage, TextStage, FinStage;
    AckUpdatedKeeps(s, g, s.state, s.on);
    StagesKeepNumbers(AckStage(s, g), g);
  }

  /** What a segment does to the send numbers: nothing, an ack update, or, in SYN-SENT, it
      acknowledges the SYN. */
  lemma SegmentNumbers<P>(s: Sock<P>, g: Seg<P>, iss: Word)
    requires SockOk(s)
    ensures var s' := OnSegment(s, g, iss).sock;
      && s'.iss == s.iss && s'.nxt == s.nxt && SockOk(s')
      && (s'.state == SynSent ==> s' == s)
      && (SameNumbers(s, s') || SameNumbers(AckUpdated(s, g), s')
          || (s.state == SynSent && s.iss < g.ackNo <= s.nxt && SameNumbers(s.(una := g.ackNo), s')))
  {
    hide Otherwise, AckUpdated;
    if Later(s.state) {
      LaterNumbers(s, g);
    }
  }

  /** No event breaks iss <= snd_una <= snd_nxt, moves snd_una back, or moves (snd_wl1, snd_wl2) back. */
  lemma NextKeepsNumbers<P>(s: Sock<P>, e: Event<P>, s': Sock<P>)
    requires NumbersOk(s) && Next(s, e, s')
    ensures SockOk(s') && NumbersOk(s') && Grows(s, s') && s'.iss == s.iss
  {
    hide OnSegment;
    if e.Arrival? {
      SegmentNumbers(s, e.g, e.iss);
    }
  }

  /** snd_wnd is only taken from a segment that is not older than the one it was last taken from. */
  lemma WindowOnlyFromNewer<P>(s: Sock<P>, e: Event<P>, s': Sock<P>)
    requires Next(s, e, s') && (s'.wnd != s.wnd || s'.wl1 != s.wl1 || s'.wl2 != s.wl2)
    ensures e.Arrival? && s'.wnd == e.g.win && s'.wl1 == e.g.sq && s'.wl2 == e.g.ackNo
    ensures NotAfter(s.wl1, s.wl2, e.g.sq, e.g.ackNo) && s.una < e.g.ackNo <= s.nxt
  {
    hide OnSegment;
    if e.Arrival? {
      SegmentNumbers(s, e.g, e.iss);
    }
  }

  ghost predicate IsRun<P(!new)>(run: seq<Sock<P>>) {
    && run != [] && SockOk(run[0]) && NumbersOk(run[0])
    && forall i :: 0 <= i < |run| - 1 ==> Step(run[i], run[i + 1])
  }

  lemma {:induction false} RunNumbers<P(!new)>(run: seq<Sock<P>>, i: nat, j: nat)
    requires IsRun(run) && i <= j < |run|
    ensures NumbersOk(run[j]) && Grows(run[i], run[j]) && run[i].iss == run[j].iss
    decreases j
  {
    if j > 0 {
      RunNumbers(run, if i < j then i else 0, j - 1);
      assert Step(run[j - 1], run[j - 1 + 1]);
      var e :| Next(run[j - 1], e, run[j]);
      NextKeepsNumbers(run[j - 1], e, run[j]);
    }
  }

  /** Nothing in the code enters SYN-SENT or LAST-ACK: connect leaves the state alone, and
      close is refused in CLOSE-WAIT. */
  lemma NeverEntered<P>(s: Sock<P>, e: Event<P>, s': Sock<P>)
    requires Next(s, e, s') && (s'.state == SynSent || s'.state == LastAck)
    ensures s'.state == s.state
  {
    hide Arrived;
    if e.Arrival? {
      SegmentEdges(s, e.g, e.iss);
    }
  }

  // ----- the lists over runs of the code: which sockets are found, and which states are reached

  /** What can happen in the code: a segment finds only a socket that is on a list
      (xy_tcp_recv.cc:28-48), and only the established list is sent from
      (established_send_buffers). */
  ghost predicate CodeNext<P>(s: Sock<P>, e: Event<P>, s': Sock<P>) {
    && Next(s, e, s')
    && (e.Arrival? ==> s.on != NOWHERE)
    && (e.Send? ==> s.on.established)
  }

  /** The list on which a socket in this state belongs. */
  function Home(state: State): Lists {
    match state
    case Listen => NOWHERE.(listeners := true)
    case SynReceived => NOWHERE.(synRecved := true)
    case Established => NOWHERE.(established := true)
    case _ => NOWHERE
  }

  /** What holds in every reachable state: half-open and established sockets are on their own list
      and on no other, the listeners listen, and no other state but CLOSED, CLOSE-WAIT and
      FIN-WAIT-1 is entered at all. */
  predicate Placed<P>(s: Sock<P>) {
    && (s.on.listeners ==> s.state == Listen)
    && match s.state {
      case SynReceived => s.on == Home(s.state) && s.passive
      case Established | CloseWait | FinWait1 => s.on == Home(s.state)
      case Listen | Close => true
      case _ => false
    }
  }

  /** What a segment makes of a half-open or established socket that is on its own list. */
  lemma LaterPlaced<P>(s: Sock<P>, g: Seg<P>)
    requires SockOk(s) && Placed(s) && Later(s.state) && s.on != NOWHERE
    ensures var s' := Otherwise(s, g).sock;
      && Placed(s')
      && (s'.on == Home(s'.state) <==> !(Acceptable(s, g) && (g.rst || g.syn)))
  {
    hide Arrived, Acceptable, AckUpdated;
    AckUpdatedKeeps(s, g, s.state, s.on);
  }

  lemma NextPlaced<P>(s: Sock<P>, e: Event<P>, s': Sock<P>)
    requires Placed(s) && CodeNext(s, e, s')
    ensures Placed(s')
  {
    hide Otherwise;
    if e.Arrival? && Later(s.state) {
      LaterPlaced(s, e.g);
    }
  }

  /** A socket that is on the list where it belongs stays so with every event but an acceptable RST
      or SYN from SYN-RECEIVED on.  That leaves it CLOSED and still on its list, or LISTEN on none. */
  lemma StaysAtHomeIff<P>(s: Sock<P>, e: Event<P>, s': Sock<P>)
    requires Placed(s) && s.on == Home(s.state) && CodeNext(s, e, s')
    ensures s'.on == Home(s'.state)
      <==> !(e.Arrival? && Later(s.state) && Acceptable(s, e.g) && (e.g.rst || e.g.syn))
  {
    hide Otherwise;
    if e.Arrival? && Later(s.state) {
      LaterPlaced(s, e.g);
    }
  }

  ghost predicate CodeStep<P(!new)>(s: Sock<P>, s': Sock<P>) {
    exists e :: CodeNext(s, e, s')
  }

  /** A run of the code, from a socket that xy_syn_socket or state_tcp_listen has made. */
  ghost predicate IsCodeRun<P(!new)>(run: seq<Sock<P>>) {
    && run != [] && (run[0] == NewSocket() || exists iss, g :: run[0] == Child(iss, g))
    && forall i :: 0 <= i < |run| - 1 ==> CodeStep(run[i], run[i + 1])
  }

  /** Every socket found on the list of listeners is in LISTEN, as its lookup asserts
      (xy_socks.cc:31), and of the eleven states only six are ever entered. */
  lemma {:induction false} RunsArePlaced<P(!new)>(run: seq<Sock<P>>, i: nat)
    requires IsCodeRun(run) && i < |run|
    ensures Placed(run[i])
    ensures run[i].state in {Close, Listen, SynReceived, Established, CloseWait, FinWait1}
    ensures run[i].on.listeners ==> run[i].state == Listen
  {
    if i > 0 {
      RunsArePlaced(run, i - 1);
      assert CodeStep(run[i - 1], run[i - 1 + 1]);
      var e :| CodeNext(run[i - 1], e, run[i]);
      NextPlaced(run[i - 1], e, run[i]);
    }
  }

  lemma NoStep<P(!new)>(s: Sock<P>, s': Sock<P>)
    requires Placed(s) && (s.state == FinWait1 || s.state == CloseWait)
    ensures !CodeStep(s, s')
  {
  }

  /** Nothing ever happens again to a socket that has left ESTABLISHED by close or by a FIN: it is
      on no list, so no segment finds it, and the FIN in its snd_buf_list is never sent. */
  lemma ClosedIsTheEnd<P(!new)>(run: seq<Sock<P>>, i: nat)
    requires IsCodeRun(run) && i < |run|
    requires run[i].state == FinWait1 || run[i].state == CloseWait
    ensures i == |run| - 1
  {
    RunsArePlaced(run, i);
    if i + 1 < |run| {
      NoStep(run[i], run[i + 1]);
    }
  }

  // ----- runs that get there

  /** A segment with number `sq` and nothing in flight behind it, acknowledging `ackNo`. */
  function Plain<P>(sq: Word, ackNo: Word, fin: bool, rst: bool): Seg<P> {
    Seg(false, true, fin, rst, false, sq, ackNo, 0, 0, None)
  }

  /** A client with initial number 0 connects to a listener that picks 0. */
  lemma FirstSteps<P(!new)>() returns (run: seq<Sock<P>>)
    ensures IsCodeRun(run) && |run| == 2 && run[0] == Child(0, Syn(0, 0)) && run[1].state == Established
    ensures run[1] == run[0].(state := Established, on := Home(Established), una := 1, wnd := 0, wl1 := 1, wl2 := 1)
  {
    var s0: Sock<P> := Child(0, Syn(0, 0));
    var g: Seg<P> := Plain(1, 1, false, false);
    var s1 := OnSegment(s0, g, 0).sock;
    assert CodeNext(s0, Arrival(g, 0), s1);
    run := [s0, s1];
  }

  lemma OneMore<P(!new)>(run: seq<Sock<P>>, e: Event<P>, s': Sock<P>) returns (run': seq<Sock<P>>)
    requires IsCodeRun(run) && CodeNext(run[|run| - 1], e, s')
    ensures IsCodeRun(run') && run' == run + [s']
  {
    run' := run + [s'];
    assert CodeStep(run[|run| - 1], s');
  }

  /** A reset leaves an established socket CLOSED, and on the list of established sockets. */
  lemma ResetStaysListed<P(!new)>() returns (run: seq<Sock<P>>)
    ensures IsCodeRun(run) && |run| == 3 && run[1].on == Home(run[1].state)
    ensures run[2].state == Close && run[2].on.established
  {
    run := FirstSteps();
    var g: Seg<P> := Plain(1, 1, false, true);
    run := OneMore(run, Arrival(g, 0), OnSegment(run[1], g, 0).sock);
  }

  /** The states that sockets do enter. */
  predicate Entered(state: State) {
    state in {Close, Listen, SynReceived, Established, CloseWait, FinWait1}
  }

  lemma ReachState<P(!new)>(state: State) returns (run: seq<Sock<P>>)
    requires Entered(state)
    ensures IsCodeRun(run) && run[|run| - 1].state == state
  {
    hide OnSegment, IsCodeRun;
    match state
    case Close =>
      run := NewRun();
    case Listen =>
      run := NewRun();
      run := OneMore(run, CallListen, Listening(run[0]));
    case SynReceived =>
      run := ChildRun();
    case Established =>
      run := FirstSteps();
    case FinWait1 =>
      run := FirstSteps();
      run := OneMore(run, CallClose, Closed(run[1]));
    case CloseWait =>
      run := EarlyFin(1);
  }

  lemma NewRun<P(!new)>() returns (run: seq<Sock<P>>)
    ensures IsCodeRun(run) && run == [NewSocket()]
  {
    run := [NewSocket()];
  }

  lemma ChildRun<P(!new)>() returns (run: seq<Sock<P>>)
    ensures IsCodeRun(run) && run == [Child(0, Syn(0, 0))]
  {
    run := [Child(0, Syn(0, 0))];
  }

  ghost predicate ReachesState<P(!new)>(run: seq<Sock<P>>, state: State) {
    IsCodeRun(run) && run[|run| - 1].state == state
  }

  /** Of the eleven states exactly six are entered, over all runs of the code. */
  lemma StatesEnteredIff<P(!new)>(state: State)
    ensures (exists run: seq<Sock<P>> :: ReachesState(run, state)) <==> Entered(state)
  {
    hide IsCodeRun;
    if run: seq<Sock<P>> :| ReachesState(run, state) {
      LastPlaced(run);
    }
    if Entered(state) {
      var run: seq<Sock<P>> := ReachState(state);
      assert ReachesState(run, state);
    }
  }

  lemma LastPlaced<P(!new)>(run: seq<Sock<P>>)
    requires IsCodeRun(run)
    ensures Entered(run[|run| - 1].state)
  {
    RunsArePlaced(run, |run| - 1);
  }

  // ----- what is acknowledged was received, but for an early FIN

  /** rcv_nxt counts the peer's SYN and the segments handed to the user. */
  ghost predicate Received<P>(s: Sock<P>) {
    match s.state
    case Close | Listen => true
    case SynSent => s.rcv.delivered == []
    case _ => s.rcv.nxt == Plus(s.irs, 1 + |s.rcv.delivered|)
  }

  /** ... and the peer's FIN. */
  ghost predicate ReceivedWithFin<P>(s: Sock<P>) {
    s.rcv.nxt == Plus(s.irs, 2 + |s.rcv.delivered|)
  }

  /** The segment gets to the FIN stage, and that does not ignore its FIN. */
  predicate TakesFin<P>(s: Sock<P>, g: Seg<P>) {
    && Later(s.state) && Acceptable(s, g) && !g.rst && !g.syn && g.ack && !BadAck(s, g)
    && g.fin && AckedState(s, g) != Close
  }

  /** No two numbers have the same successor. */
  lemma NextNumber(irs: Word, n: nat, sq: Word)
    ensures Plus(sq, 1) == Plus(irs, n + 1) <==> sq == Plus(irs, n)
  {
    Protocol.WrappedPlus(irs + n, 1);
  }

  lemma ArrivedCounts<P>(r: Receiver<P>, irs: Word, m: Segment<P>)
    requires |r.view| == SIZE && r.nxt == Plus(irs, 1 + |r.delivered|)
    ensures var r' := Arrived(r, m); r'.nxt == Plus(irs, 1 + |r'.delivered|) && r'.nxt != m.sq
  {
    if m.sq == r.nxt {
      var n := Run(Admitted(r.view, 0, m));
      Protocol.WrappedPlus(irs + 1 + |r.delivered|, n);
    }
  }

  lemma StagesReceive<P>(s: Sock<P>, g: Seg<P>)
    requires SockOk(s) && s.rcv.nxt == Plus(s.irs, 1 + |s.rcv.delivered|)
    ensures var t := TextStage(UrgStage(s, g), g).sock;
      && t.state == s.state && t.irs == s.irs && t.rcv.nxt == Plus(t.irs, 1 + |t.rcv.delivered|)
      && (t.rcv.nxt == g.sq <==> s.rcv.nxt == g.sq && !(g.data.Some? && TakesText(s.state)))
  {
    hide Arrived, Plus;
    if g.data.Some? {
      ArrivedCounts(s.rcv, s.irs, Segment(g.sq, g.data.value));
    }
  }

  /** A FIN is counted exactly when it is the number expected and its segment carries no text that
      the socket takes: the code sets rcv_nxt to one past it in any case
      (xy_tcp_state_others.h:254), over a gap, or back over the text. */
  lemma FinCountedIff<P>(s: Sock<P>, g: Seg<P>)
    requires SockOk(s) && Received(s) && TakesFin(s, g)
    ensures ReceivedWithFin(Otherwise(s, g).sock)
      <==> g.sq == s.rcv.nxt && !(g.data.Some? && TakesText(AckedState(s, g)))
  {
    hide Acceptable, AckUpdated, Plus, TextStage;
    AckUpdatedKeeps(s, g, s.state, s.on);
    var s1 := AckStage(s, g);
    StagesReceive(s1, g);
    var t := TextStage(UrgStage(s1, g), g).sock;
    NextNumber(t.irs, 1 + |t.rcv.delivered|, g.sq);
  }

  lemma LaterReceives<P>(s: Sock<P>, g: Seg<P>)
    requires SockOk(s) && Received(s) && Later(s.state) && !TakesFin(s, g)
    ensures Received(Otherwise(s, g).sock)
  {
    hide Acceptable, AckUpdated, Plus, UrgStage, TextStage;
    AckUpdatedKeeps(s, g, s.state, s.on);
    StagesReceive(AckStage(s, g), g);
  }

  /** Every other event keeps rcv_nxt one past what was received. */
  lemma NextReceives<P>(s: Sock<P>, e: Event<P>, s': Sock<P>)
    requires Received(s) && Next(s, e, s') && !(e.Arrival? && TakesFin(s, e.g))
    ensures Received(s')
  {
    hide Otherwise, Acceptable;
    if e.Arrival? && Later(s.state) {
      LaterReceives(s, e.g);
    }
  }

  lemma FinCloses<P>(s: Sock<P>, g: Seg<P>)
    requires SockOk(s) && Placed(s) && Later(s.state) && s.on != NOWHERE
    ensures Otherwise(s, g).sock.state == CloseWait <==> TakesFin(s, g)
  {
    hide Arrived, Acceptable, AckUpdated;
    AckUpdatedKeeps(s, g, s.state, s.on);
  }

  /** In every run of the code a socket acknowledges only what it has received, until a FIN takes
      it to CLOSE-WAIT. */
  lemma {:induction false} RunsReceive<P(!new)>(run: seq<Sock<P>>, i: nat)
    requires IsCodeRun(run) && i < |run| && run[i].state != CloseWait
    ensures Received(run[i])
  {
    hide Received, Placed, TakesFin;
    if i == 0 {
      FirstReceives(run[0]);
    } else {
      RunsArePlaced(run, i - 1);
      if run[i - 1].state == CloseWait {
        ClosedIsTheEnd(run, i - 1);
        assert false;
      }
      RunsReceive(run, i - 1);
      assert CodeStep(run[i - 1], run[i - 1 + 1]);
      var e :| CodeNext(run[i - 1], e, run[i]);
      CodeReceives(run[i - 1], e, run[i]);
    }
  }

  lemma FirstReceives<P(!new)>(s: Sock<P>)
    requires s == NewSocket() || exists iss, g :: s == Child(iss, g)
    ensures Received(s)
  {
  }

  lemma CodeReceives<P>(s: Sock<P>, e: Event<P>, s': Sock<P>)
    requires Placed(s) && Received(s) && CodeNext(s, e, s') && s.state != CloseWait && s'.state != CloseWait
    ensures Received(s')
  {
    hide Otherwise, Acceptable, Received;
    if e.Arrival? && Later(s.state) {
      FinCloses(s, e.g);
    }
    NextReceives(s, e, s');
  }

  /** ... and that FIN is acknowledged rightly exactly when it stands alone at the number expected. */
  lemma FinOverRuns<P(!new)>(run: seq<Sock<P>>, i: nat) returns (g: Seg<P>)
    requires IsCodeRun(run) && i + 1 < |run| && run[i + 1].state == CloseWait
    ensures SockOk(run[i]) && run[i + 1] == OnSegment(run[i], g, 0).sock && g.fin
    ensures ReceivedWithFin(run[i + 1]) <==> g.sq == run[i].rcv.nxt && g.data.None?
  {
    hide Otherwise, Acceptable, Received, ReceivedWithFin;
    RunsArePlaced(run, i);
    if run[i].state == CloseWait {
      ClosedIsTheEnd(run, i);
      assert false;
    }
    RunsReceive(run, i);
    assert CodeStep(run[i], run[i + 1]);
    var e :| CodeNext(run[i], e, run[i + 1]);
    g := e.g;
    FinCloses(run[i], g);
    FinCountedIff(run[i], g);
  }

  lemma FinTaken<P>(s: Sock<P>, g: Seg<P>)
    requires SockOk(s) && s.state == Established && TakesFin(s, g) && g.data.None?
    ensures var s' := Otherwise(s, g).sock;
      s'.state == CloseWait && s'.rcv.nxt == Plus(g.sq, 1) && s'.rcv.delivered == s.rcv.delivered
  {
    hide Acceptable, AckUpdated;
    AckUpdatedKeeps(s, g, s.state, s.on);
  }

  /** A run that acknowledges what was never sent: a FIN at any number of the window is taken, and
      rcv_nxt goes from 1 to one past it although nothing was delivered. */
  lemma EarlyFin<P(!new)>(sq: Word) returns (run: seq<Sock<P>>)
    requires 1 <= sq <= 1 + SIZE
    ensures IsCodeRun(run) && |run| == 3 && run[1].rcv.nxt == 1
    ensures run[2].state == CloseWait && run[2].rcv.nxt == sq + 1 && run[2].rcv.delivered == []
  {
    hide IsCodeRun, Otherwise;
    run := FirstSteps();
    var g: Seg<P> := Plain(sq, 1, true, false);
    FinTaken(run[1], g);
    run := OneMore(run, Arrival(g, 0), OnSegment(run[1], g, 0).sock);
  }

  // ----- the three-way handshake

  /** The segment that carries a reply, with the window `win`. */
  function Carry<P>(r: Reply, win: nat): Seg<P> {
    Seg(r.control == SynAckBits, r.control != RstBit, false, r.control == RstBit || r.control == RstAckBits, false,
      r.sq, r.ackNo, win, 0, None)
  }

  /** An active open as in section 3.9: the SYN is sent, and nothing is known of the other side. */
  function ActiveOpen<P>(iss: Word): Sock<P> {
    Sock(SynSent, NOWHERE, false, iss, 0, iss, Plus(iss, 1), 0, 0, 0, SIZE, 0, Receiver(0, Blanks(SIZE), []), [])
  }

  function Syn<P>(iss: Word, win: nat): Seg<P> {
    Seg(true, false, false, false, false, iss, 0, win, 0, None)
  }

  function Listener<P>(): Sock<P> {
    Listening(NewSocket())
  }

  /** The client's SYN makes the server's socket, whose answer the client answers. */
  ghost predicate Connects<P>(issC: Word, issS: Word, winC: nat, winS: nat, client: Sock<P>, server: Sock<P>) {
    var syn: Seg<P> := Syn(issC, winC);
    var answer := OnSegment(Listener(), syn, issS).replies;
    && Welcomes(syn) && |answer| == 1
    && (var o := OnSegment(ActiveOpen(issC), Carry(answer[0], winS), 0);
      client == o.sock && |o.replies| == 1 && server == OnSegment(Child(issS, syn), Carry(o.replies[0], winC), 0).sock)
  }

  /** The two sides know each other's numbers, and nothing is in flight. */
  predicate InStep<P>(a: Sock<P>, b: Sock<P>) {
    && a.state == Established && b.state == Established
    && a.rcv.nxt == b.nxt && b.rcv.nxt == a.nxt && a.una == a.nxt && b.una == b.nxt
  }

  /** The handshake brings both sides to ESTABLISHED and in step exactly when neither SYN takes
      the last sequence number: the comparisons of an acknowledgment with iss and snd_una are
      plain (xy_tcp_state_syn_sent.h:22, xy_tcp_state_others.h:141), so that one of them answers
      with a reset otherwise. */
  lemma Handshake<P>(issC: Word, issS: Word, winC: nat, winS: nat) returns (client: Sock<P>, server: Sock<P>)
    ensures Connects(issC, issS, winC, winS, client, server)
    ensures InStep(client, server) <==> issC + 1 < SPACE && issS + 1 < SPACE
  {
    hide Arrived;
    var answer := OnSegment<P>(Listener(), Syn(issC, winC), issS).replies;
    assert answer == [Reply(SynAckBits, issS, Plus(issC, 1))];
    var o := OnSegment<P>(ActiveOpen(issC), Carry(answer[0], winS), 0);
    assert o.replies == if issC + 1 < SPACE then [Reply(AckBit, issC + 1, Plus(issS, 1))] else [Reply(RstBit, 0, 0)];
    client, server := o.sock, OnSegment(Child(issS, Syn(issC, winC)), Carry(o.replies[0], winC), 0).sock;
  }
}
