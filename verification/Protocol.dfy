/** The sliding window protocol as a whole: a sender, a receiver, and a network between
    them that may lose, duplicate and reorder what it carries (sections 3.3 and 3.7 of
    RFC 793).  Each step is one of the updates of module SlidingWindow, which the methods
    of its class Tcb are proved to perform. */
module Protocol {
  import opened Common
  import opened Windows
  import opened SlidingWindow

  /** A message and, for the lifetime assumption only, the number of the segment it carries
      or acknowledges, counted from the start of the connection and never wrapped. */
  datatype Msg<+P> =
    | Data(index: nat, m: Segment<P>)
    | Ack(index: nat, h: AckFields)

  /** `queued` is everything the user ever queued; `una` and `nxt` count segments from the
      start of the connection where the sender's own numbers wrap. */
  datatype State<P(==)> = State(iss: Word, queued: seq<P>, una: nat, nxt: nat, snd: Sender<P>, rcv: Receiver<P>,
    net: set<Msg<P>>)

  datatype Step<+P> =
    | Queue(buf: P)
    | Send
    | ReceiveData(msg: Msg<P>, reply: AckFields)
    | ReceiveAck(msg: Msg<P>)
    | Lose(msg: Msg<P>)

  ghost predicate Init<P(!new)>(s: State<P>) {
    && s.queued == [] && s.una == s.nxt == 0 && s.net == {}
    && s.snd.una == s.snd.nxt == s.iss && s.snd.ring == [] && s.snd.pending == []
    && s.rcv == Receiver(s.iss, Blanks(SIZE), [])
  }

  /** No message outlives the sequence space: what arrives lies less than 2^32 - 4096
      segments behind the number it is compared with. */
  predicate Alive(now: nat, index: nat) {
    now < index + SPACE - SIZE
  }

  /** The unwrapped number of the j-th message of one call of tcp_send_buf. */
  ghost function IndexOf<P>(s: State<P>, j: nat): nat {
    if s.snd.ring == [] then s.nxt + j else if j == 0 then s.una else s.nxt + j - 1
  }

  ghost function Sent<P>(s: State<P>): set<Msg<P>>
    requires SenderOk(s.snd)
  {
    var out := Output(s.snd, Burst(s.snd));
    set j | 0 <= j < |out| :: Data(IndexOf(s, j), out[j])
  }

  ghost predicate NextStep<P(!new)>(s: State<P>, s': State<P>, step: Step<P>) {
    match step
    case Queue(buf) =>
      s' == s.(queued := s.queued + [buf], snd := s.snd.(pending := s.snd.pending + [buf]))
    case Send =>
      && SenderOk(s.snd)
      && s' == s.(snd := Transmitted(s.snd), nxt := s.nxt + Burst(s.snd), net := s.net + Sent(s))
    case ReceiveData(msg, reply) =>
      // the message stays in the network: it may arrive again
      && msg in s.net && msg.Data? && Alive(|s.rcv.delivered|, msg.index) && |s.rcv.view| == SIZE
      && var rcv := Arrived(s.rcv, msg.m);
         reply.ack == rcv.nxt && s' == s.(rcv := rcv, net := s.net + {Ack(|rcv.delivered|, reply)})
    case ReceiveAck(msg) =>
      && msg in s.net && msg.Ack? && Alive(s.una, msg.index) && SenderOk(s.snd)
      && s' == s.(snd := Acked(s.snd, msg.h),
                  una := s.una + if Accepts(s.snd, msg.h.ack) then msg.h.ack - s.snd.una else 0)
    case Lose(msg) =>
      s' == s.(net := s.net - {msg})
  }

  ghost predicate Next<P(!new)>(s: State<P>, s': State<P>) {
    exists step :: NextStep(s, s', step)
  }

  /** A run: any number of steps from an initial state. */
  ghost predicate IsRun<P(!new)>(run: seq<State<P>>) {
    && |run| > 0 && Init(run[0])
    && forall i :: 0 <= i < |run| - 1 ==> Next(run[i], run[i + 1])
  }

  // ----- the invariant

  function Wrapped(x: nat): Word {
    x % SPACE
  }

  /** The segment that carries the i-th queued buffer. */
  ghost function Numbered<P>(s: State<P>, i: nat): Segment<P>
    requires i < |s.queued|
  {
    Segment(Wrapped(s.iss + i), s.queued[i])
  }

  /** The send ring holds exactly the segments una..nxt-1, in order. */
  ghost predicate SenderInv<P>(s: State<P>) {
    && s.una <= s.nxt <= |s.queued| && s.nxt - s.una < SIZE
    && s.snd.una == Wrapped(s.iss + s.una) && s.snd.nxt == Wrapped(s.iss + s.nxt)
    && s.snd.ring == s.queued[s.una..s.nxt] && s.snd.pending == s.queued[s.nxt..]
  }

  ghost predicate MsgInv<P>(s: State<P>, msg: Msg<P>) {
    match msg
    case Data(i, m) => i < s.nxt && i < |s.queued| && m == Numbered(s, i)
    case Ack(i, h) => i <= |s.rcv.delivered| && h.ack == Wrapped(s.iss + i)
  }

  /** Delivered is a prefix of what was sent; what waits in the window stands at its offset. */
  ghost predicate ReceiverInv<P>(s: State<P>) {
    var d := |s.rcv.delivered|;
    && |s.rcv.view| == SIZE && s.una <= d <= s.nxt <= |s.queued|
    && s.rcv.nxt == Wrapped(s.iss + d)
    && (forall i :: 0 <= i < d ==> s.rcv.delivered[i] == Numbered(s, i))
    && (forall k :: 1 <= k < SIZE && s.rcv.view[k].Some? ==> d + k < s.nxt && s.rcv.view[k].value == Numbered(s, d + k))
  }

  ghost predicate Inv<P(!new)>(s: State<P>) {
    && SenderInv(s) && ReceiverInv(s)
    && forall msg :: msg in s.net ==> MsgInv(s, msg)
  }

  // ----- arithmetic of wrapped numbers

  lemma ModUnique(x: int, q: int, r: int)
    requires x == q * SPACE + r && 0 <= r < SPACE
    ensures x % SPACE == r
  {
  }

  lemma WrappedMinus(a: nat, b: nat)
    ensures Minus(Wrapped(a), Wrapped(b)) == (a - b) % SPACE
  {
    var x := Wrapped(a) - Wrapped(b);
    ModUnique(a - b, a / SPACE - b / SPACE + x / SPACE, x % SPACE);
  }

  lemma WrappedPlus(a: nat, n: nat)
    ensures (Wrapped(a) + n) % SPACE == Wrapped(a + n)
  {
    ModUnique(a + n, a / SPACE + (Wrapped(a) + n) / SPACE, (Wrapped(a) + n) % SPACE);
  }

  lemma MinusNear(a: nat, b: nat)
    requires -SPACE < a - b < SPACE
    ensures Minus(Wrapped(a), Wrapped(b)) == if a >= b then a - b else a - b + SPACE
  {
    WrappedMinus(a, b);
    if a < b {
      ModUnique(a - b, -1, a - b + SPACE);
    } else {
      ModUnique(a - b, 0, a - b);
    }
  }

  // ----- the steps keep the invariant

  lemma SenderInvOk<P>(s: State<P>)
    requires SenderInv(s)
    ensures SenderOk(s.snd)
  {
    MinusNear(s.iss + s.nxt, s.iss + s.una);
  }

  lemma SentInv<P>(s: State<P>, msg: Msg<P>)
    requires SenderInv(s) && SenderOk(s.snd) && msg in Sent(s)
    ensures msg.Data? && msg.index < s.nxt + Burst(s.snd) && msg.m == Numbered(s, msg.index)
  {
    hide Wrapped, Burst, Minus;
    var n := Burst(s.snd);
    var out := Output(s.snd, n);
    var j :| 0 <= j < |out| && msg == Data(IndexOf(s, j), out[j]);
    var i := if s.snd.ring == [] then j else j - 1;
    if i >= 0 {
      WrappedPlus(s.iss + s.nxt, i);
    }
  }

  lemma SendKeepsSender<P>(s: State<P>)
    requires SenderInv(s) && SenderOk(s.snd)
    ensures SenderInv(s.(snd := Transmitted(s.snd), nxt := s.nxt + Burst(s.snd)))
  {
    hide Wrapped, Minus, Burst;
    var n, q := Burst(s.snd), s.queued;
    WrappedPlus(s.iss + s.nxt, n);
    assert q[s.una..s.nxt] + q[s.nxt..][..n] == q[s.una..s.nxt + n];
    assert q[s.nxt..][n..] == q[s.nxt + n..];
  }

  lemma SendKeepsInv<P(!new)>(s: State<P>, s': State<P>)
    requires Inv(s) && NextStep(s, s', Send)
    ensures Inv(s')
  {
    hide Wrapped, Minus, Sent, Output, Burst, SenderInv, Transmitted;
    InvParts(s);
    SendKeepsSender(s);
    assert SenderInv(s') by {
      SenderInvNet(s.(snd := Transmitted(s.snd), nxt := s.nxt + Burst(s.snd)), s'.net);
    }
    forall msg | msg in s'.net ensures MsgInv(s', msg) {
      if msg in s.net {
        assert MsgInv(s, msg);
      } else {
        SentInv(s, msg);
      }
    }
  }

  lemma SenderInvNet<P>(s: State<P>, net: set<Msg<P>>)
    requires SenderInv(s)
    ensures SenderInv(s.(net := net))
  {
  }

  lemma QueueKeepsInv<P(!new)>(s: State<P>, s': State<P>, buf: P)
    requires Inv(s) && NextStep(s, s', Queue(buf))
    ensures Inv(s')
  {
    hide Wrapped, Minus;
    forall msg | msg in s'.net ensures MsgInv(s', msg) {
      assert MsgInv(s, msg);
    }
  }

  lemma AcceptedNumber(una: nat, nxt: nat, i: nat)
    requires una <= nxt < una + SIZE && i <= nxt && Alive(una, i)
    requires Wrapped(una) < Wrapped(i) <= Wrapped(nxt)
    ensures una < i && Wrapped(i) - Wrapped(una) == i - una
  {
    hide Wrapped;
    MinusNear(nxt, una);
    MinusNear(i, una);
  }

  /** An acknowledgment that is accepted takes its number from among those in flight. */
  lemma AcceptedAck<P>(s: State<P>, i: nat, ack: Word)
    requires SenderInv(s) && i <= s.nxt && ack == Wrapped(s.iss + i) && Alive(s.una, i)
    requires Accepts(s.snd, ack)
    ensures s.una < i <= s.nxt && ack - s.snd.una == i - s.una
  {
    hide Wrapped;
    AcceptedNumber(s.iss + s.una, s.iss + s.nxt, s.iss + i);
  }

  /** The plain comparisons of tcp_ack_window_update accept a live acknowledgment of
      segments in flight exactly when the numbers in flight do not cross the end of the
      sequence space; from there on the sender accepts none, but delivery stays correct. */
  lemma AcceptedExactly(una: nat, nxt: nat, i: nat)
    requires una < i <= nxt < una + SIZE
    ensures Wrapped(una) < Wrapped(i) <= Wrapped(nxt) <==> una / SPACE == nxt / SPACE
  {
  }

  /** Each accepted acknowledgment drops exactly the acknowledged prefix of the send ring. */
  lemma AckKeepsInv<P(!new)>(s: State<P>, s': State<P>, msg: Msg<P>)
    requires Inv(s) && NextStep(s, s', ReceiveAck(msg))
    ensures Inv(s')
  {
    hide Wrapped, Minus;
    assert MsgInv(s, msg);
    if Accepts(s.snd, msg.h.ack) {
      AcceptedAck(s, msg.index, msg.h.ack);
      SenderInvOk(s);
    }
    forall m | m in s'.net ensures MsgInv(s', m) {
      assert MsgInv(s, m);
    }
  }

  /** A live data segment is admitted only at its own offset, which is below the window size. */
  lemma DataOffset<P>(s: State<P>, i: nat)
    requires SenderInv(s) && ReceiverInv(s) && i < s.nxt && Alive(|s.rcv.delivered|, i)
    ensures var d, o := |s.rcv.delivered|, Minus(Wrapped(s.iss + i), s.rcv.nxt);
      && (if i >= d then o == i - d && o < SIZE else o > SIZE)
      && (Wrapped(s.iss + i) == s.rcv.nxt <==> i == d)
  {
    hide Wrapped;
    MinusNear(s.iss + i, s.iss + |s.rcv.delivered|);
  }

  lemma DataKeepsReceiver<P>(s: State<P>, i: nat, m: Segment<P>)
    requires SenderInv(s) && ReceiverInv(s) && i < s.nxt && Alive(|s.rcv.delivered|, i) && m == Numbered(s, i)
    ensures ReceiverInv(s.(rcv := Arrived(s.rcv, m))) && |s.rcv.delivered| <= |Arrived(s.rcv, m).delivered|
  {
    hide Wrapped, Minus;
    DataOffset(s, i);
    if i == |s.rcv.delivered| {
      HeadKeepsReceiver(s, m);
    }
  }

  lemma HeadRun<P>(s: State<P>, m: Segment<P>)
    requires ReceiverInv(s) && |s.rcv.delivered| < s.nxt && m == Numbered(s, |s.rcv.delivered|)
    ensures var d, view := |s.rcv.delivered|, Admitted(s.rcv.view, 0, m);
      var n, view' := Run(view), Collected(view);
      && d + n <= s.nxt
      && (forall k: nat :: k < n ==> Values(view[..n])[k] == Numbered(s, d + k))
      && (forall k: nat :: k < SIZE && view'[k].Some? ==> d + n + k < s.nxt && view'[k].value == Numbered(s, d + n + k))
  {
    hide Wrapped, Collected, Run;
    var d, view := |s.rcv.delivered|, Admitted(s.rcv.view, 0, m);
    var n, view' := Run(view), Collected(view);
    ghost var p := (k: nat, x: Segment<P>) => d + k < s.nxt && x == Numbered(s, d + k);
    CollectShifts(view, p);
    assert n > 0 ==> p(n - 1, Values(view[..n])[n - 1]);
    forall k: nat | k < n ensures Values(view[..n])[k] == Numbered(s, d + k) {
      assert p(k, Values(view[..n])[k]);
    }
    forall k: nat | k < SIZE && view'[k].Some? ensures d + n + k < s.nxt && view'[k].value == Numbered(s, d + n + k) {
      assert p(k + n, view'[k].value);
    }
  }

  /** The expected segment arrives: it overwrites the head slot, and the run goes to the user. */
  lemma HeadKeepsReceiver<P>(s: State<P>, m: Segment<P>)
    requires ReceiverInv(s) && |s.rcv.delivered| < s.nxt && m == Numbered(s, |s.rcv.delivered|) && m.sq == s.rcv.nxt
    ensures ReceiverInv(s.(rcv := Arrived(s.rcv, m))) && |s.rcv.delivered| <= |Arrived(s.rcv, m).delivered|
  {
    hide Wrapped, Collected, Run, Values;
    HeadRun(s, m);
    WrappedPlus(s.iss + |s.rcv.delivered|, Run(Admitted(s.rcv.view, 0, m)));
  }

  lemma DataKeepsInv<P(!new)>(s: State<P>, s': State<P>, msg: Msg<P>, reply: AckFields)
    requires Inv(s) && NextStep(s, s', ReceiveData(msg, reply))
    ensures Inv(s')
  {
    hide Wrapped, Minus, Arrived;
    assert MsgInv(s, msg);
    DataKeepsReceiver(s, msg.index, msg.m);
    forall m | m in s'.net ensures MsgInv(s', m) {
      if m in s.net {
        assert MsgInv(s, m);
      }
    }
  }

  lemma StepKeepsInv<P(!new)>(s: State<P>, s': State<P>)
    requires Inv(s) && Next(s, s')
    ensures Inv(s') && s.rcv.delivered <= s'.rcv.delivered && s.queued <= s'.queued && s.una <= s'.una
  {
    hide Inv;
    var step :| NextStep(s, s', step);
    match step
    case Queue(buf) => QueueKeepsInv(s, s', buf);
    case Send => SendKeepsInv(s, s');
    case ReceiveData(msg, reply) => DataKeepsInv(s, s', msg, reply);
    case ReceiveAck(msg) => AckKeepsInv(s, s', msg);
    case Lose(msg) => LoseKeepsInv(s, s', msg);
  }

  lemma LoseKeepsInv<P(!new)>(s: State<P>, s': State<P>, msg: Msg<P>)
    requires Inv(s) && NextStep(s, s', Lose(msg))
    ensures Inv(s')
  {
    hide Wrapped, Minus;
    forall m | m in s'.net ensures MsgInv(s', m) {
      assert MsgInv(s, m);
    }
  }

  lemma {:induction false} RunsKeepInv<P(!new)>(run: seq<State<P>>, i: nat)
    requires IsRun(run) && i < |run|
    ensures Inv(run[i])
  {
    if i == 0 {
      InitInv(run[0]);
    } else {
      RunsKeepInv(run, i - 1);
      StepKeepsInv(run[i - 1], run[i]);
    }
  }

  lemma InitInv<P(!new)>(s: State<P>)
    requires Init(s)
    ensures Inv(s)
  {
  }

  /** Only a Queue step queues. */
  lemma QueuesOnlyByQueue<P(!new)>(s: State<P>, s': State<P>, step: Step<P>)
    requires NextStep(s, s', step)
    ensures s'.queued == if step.Queue? then s.queued + [step.buf] else s.queued
  {
  }

  lemma DeliveredInOrder<P(!new)>(s: State<P>)
    requires Inv(s)
    ensures |s.rcv.delivered| <= |s.queued|
    ensures forall j :: 0 <= j < |s.rcv.delivered| ==> s.rcv.delivered[j].payload == s.queued[j]
  {
  }

  /** Over every run, what the receiver has delivered is a prefix of what the sender's user
      queued: nothing lost, repeated or out of order. */
  lemma DeliveredIsPrefix<P(!new)>(run: seq<State<P>>, i: nat)
    requires IsRun(run) && i < |run|
    ensures var s := run[i]; var d := s.rcv.delivered;
      |d| <= |s.queued| && forall j :: 0 <= j < |d| ==> d[j].payload == s.queued[j]
  {
    RunsKeepInv(run, i);
  }

  /** ... and once delivered, it stays delivered. */
  lemma {:induction false} DeliveryGrows<P(!new)>(run: seq<State<P>>, i: nat, j: nat)
    requires IsRun(run) && i <= j < |run|
    ensures run[i].rcv.delivered <= run[j].rcv.delivered && run[i].queued <= run[j].queued && run[i].una <= run[j].una
  {
    hide Inv, Next, Init;
    if i < j {
      DeliveryGrows(run, i, j - 1);
      RunsKeepInv(run, j - 1);
      StepKeepsInv(run[j - 1], run[j]);
    }
  }

  // ----- what is lost is made good

  /** The numbers in flight lie on both sides of the end of the sequence space. */
  predicate Crosses<P>(s: State<P>) {
    (s.iss + s.una) / SPACE != (s.iss + s.nxt) / SPACE
  }

  /** A call of tcp_send_buf sends the oldest unacknowledged segment again. */
  lemma HeadIsResent<P>(s: State<P>)
    requires SenderInv(s) && s.una < s.nxt && SenderOk(s.snd)
    ensures Data(s.una, Numbered(s, s.una)) in Sent(s)
  {
    hide Wrapped, Burst, Minus;
    var out := Output(s.snd, Burst(s.snd));
    assert out[0] == Numbered(s, s.una) && IndexOf(s, 0) == s.una;
  }

  /** When the oldest unacknowledged segment gets through, everything up to it is delivered. */
  lemma HeadIsDelivered<P>(s: State<P>)
    requires SenderInv(s) && ReceiverInv(s) && s.una < s.nxt
    ensures s.una < |Arrived(s.rcv, Numbered(s, s.una)).delivered|
  {
    hide Wrapped, Minus, Collected;
    DataOffset(s, s.una);
  }

  lemma LiveAckAccepted<P>(s: State<P>, i: nat, ack: Word)
    requires SenderInv(s) && s.una < i <= s.nxt && ack == Wrapped(s.iss + i) && !Crosses(s)
    ensures Accepts(s.snd, ack) && ack - s.snd.una == i - s.una
  {
    hide Wrapped;
    AcceptedExactly(s.iss + s.una, s.iss + s.nxt, s.iss + i);
    AcceptedAck(s, i, ack);
  }

  /** From every reachable state with segments in flight, one more send whose resent segment
      and whose acknowledgment get through moves the window on, whatever was lost before,
      provided the numbers in flight after the send do not cross the end of the sequence space. */
  lemma LossIsRecovered<P(!new)>(s: State<P>) returns (s1: State<P>, s2: State<P>, s3: State<P>)
    requires Inv(s) && s.una < s.nxt
    requires (s.iss + s.una) / SPACE == (s.iss + s.nxt + Burst(s.snd)) / SPACE
    ensures Next(s, s1) && Next(s1, s2) && Next(s2, s3) && s.una < s3.una
  {
    hide Inv, Wrapped, Burst, Transmitted, Sent, Arrived, Acked, SenderInv, ReceiverInv, Minus;
    InvParts(s);
    HeadIsResent(s);
    var msg := Data(s.una, Numbered(s, s.una));
    s1 := s.(snd := Transmitted(s.snd), nxt := s.nxt + Burst(s.snd), net := s.net + Sent(s));
    assert NextStep(s, s1, Send);
    SendKeepsInv(s, s1);
    InvParts(s1);
    HeadIsDelivered(s1);
    var rcv := Arrived(s1.rcv, msg.m);
    var reply := AckFields(rcv.nxt, 0, 0);
    s2 := s1.(rcv := rcv, net := s1.net + {Ack(|rcv.delivered|, reply)});
    assert NextStep(s1, s2, ReceiveData(msg, reply));
    DataKeepsInv(s1, s2, msg, reply);
    InvParts(s2);
    var ack: Msg<P> := Ack(|rcv.delivered|, reply);
    LiveAckAccepted(s2, ack.index, reply.ack);
    s3 := s2.(snd := Acked(s2.snd, reply), una := s2.una + (reply.ack - s2.snd.una));
    assert NextStep(s2, s3, ReceiveAck(ack));
  }

  lemma InvParts<P(!new)>(s: State<P>)
    requires Inv(s)
    ensures SenderInv(s) && ReceiverInv(s) && SenderOk(s.snd)
    ensures s.una <= |s.rcv.delivered| <= s.nxt <= |s.queued| && s.nxt - s.una < SIZE
    ensures |s.rcv.view| == SIZE && s.rcv.nxt == Wrapped(s.iss + |s.rcv.delivered|)
  {
    SenderInvOk(s);
  }

  /** Once the numbers in flight cross the end of the sequence space, no step moves snd_una. */
  lemma CrossingSticks<P(!new)>(s: State<P>, s': State<P>)
    requires Inv(s) && Crosses(s) && Next(s, s')
    ensures s'.una == s.una && Crosses(s')
  {
    hide Inv, Wrapped, Burst, Transmitted, Sent, Arrived, Acked, SenderInv, ReceiverInv, Minus;
    InvParts(s);
    StepKeepsInv(s, s');
    InvParts(s');
    var step :| NextStep(s, s', step);
    if step.ReceiveAck? && Accepts(s.snd, step.msg.h.ack) {
      CrossedAckRefused(s, step.msg);
      assert false;
    }
    QuotientGrows(s.iss + s.una, s.iss + s.nxt, s.iss + s'.nxt);
  }

  lemma CrossedAckRefused<P(!new)>(s: State<P>, msg: Msg<P>)
    requires Inv(s) && Crosses(s) && msg in s.net && msg.Ack? && Alive(s.una, msg.index)
    ensures !Accepts(s.snd, msg.h.ack)
  {
    hide Wrapped;
    assert MsgInv(s, msg);
    if Accepts(s.snd, msg.h.ack) {
      AcceptedAck(s, msg.index, msg.h.ack);
      AcceptedExactly(s.iss + s.una, s.iss + s.nxt, s.iss + msg.index);
    }
  }

  lemma QuotientGrows(a: nat, b: nat, c: nat)
    requires a <= b <= c && a / SPACE != b / SPACE
    ensures a / SPACE != c / SPACE
  {
  }

  /** ... so that over the rest of any run the sender never hears of another delivery. */
  lemma {:induction false} WedgedForEver<P(!new)>(run: seq<State<P>>, i: nat, j: nat)
    requires IsRun(run) && i <= j < |run| && Crosses(run[i])
    ensures run[j].una == run[i].una && Crosses(run[j])
  {
    hide Crosses, Inv, Next, Init;
    if i < j {
      WedgedForEver(run, i, j - 1);
      RunsKeepInv(run, j - 1);
      CrossingSticks(run[j - 1], run[j]);
    }
  }

  /** A connection whose first number is the last of the sequence space gets there with its first
      segment. */
  lemma CrossingIsReached<P(!new)>(buf: P, win: nat) returns (run: seq<State<P>>)
    ensures IsRun(run) && |run| == 3 && run[0].iss == SPACE - 1 && run[0].snd.wnd == win + 1
    ensures run[2].queued == [buf] && Crosses(run[2])
  {
    hide Sent;
    var iss: Word := SPACE - 1;
    var s0 := State(iss, [], 0, 0, Sender(iss, iss, win + 1, 0, 0, [], []), Receiver(iss, Blanks(SIZE), []), {});
    var s1 := s0.(queued := [buf], snd := s0.snd.(pending := [buf]));
    assert NextStep(s0, s1, Queue(buf));
    assert Burst(s1.snd) == 1;
    var s2 := s1.(snd := Transmitted(s1.snd), nxt := 1, net := s1.net + Sent(s1));
    assert NextStep(s1, s2, Step.Send);
    run := [s0, s1, s2];
  }

  /** Over every run, the send ring is exactly the queued buffers between the oldest
      unacknowledged one and the next to send; its size is snd_nxt - snd_una; and only
      delivered buffers have been acknowledged. */
  lemma RingIsWindow<P(!new)>(run: seq<State<P>>, i: nat)
    requires IsRun(run) && i < |run|
    ensures var s := run[i];
      && s.una <= |s.rcv.delivered| <= s.nxt <= |s.queued|
      && s.snd.ring == s.queued[s.una..s.nxt] && s.snd.pending == s.queued[s.nxt..]
      && |s.snd.ring| == Minus(s.snd.nxt, s.snd.una) < SIZE
  {
    RunsKeepInv(run, i);
    SenderInvOk(run[i]);
  }
}

/** The receive window alone, under any arrivals whatsoever. */
module ReceiveOrder {
  import opened Common
  import opened Windows
  import opened SlidingWindow
  import Protocol

  /** Every slot but the head's holds nothing or the segment of its own number.  The head slot
      may hold the one segment that is admitted a full window too early. */
  ghost predicate InOrder<P>(r: Receiver<P>, irs: Word) {
    && |r.view| == SIZE
    && (forall k: nat :: 1 <= k < SIZE && r.view[k].Some? ==> r.view[k].value.sq == (r.nxt + k) % SPACE)
    && (r.view[0].Some? ==> r.view[0].value.sq == (r.nxt + SIZE) % SPACE)
    && r.nxt == (irs + |r.delivered|) % SPACE
    && (forall i: nat :: i < |r.delivered| ==> r.delivered[i].sq == (irs + i) % SPACE)
  }

  ghost function ArrivedAll<P>(r: Receiver<P>, ms: seq<Segment<P>>): (r': Receiver<P>)
    requires |r.view| == SIZE
    ensures |r'.view| == SIZE
  {
    if ms == [] then r else Arrived(ArrivedAll(r, ms[..|ms| - 1]), ms[|ms| - 1])
  }

  lemma PlusMinus(a: Word, b: Word)
    ensures a == (b + Minus(a, b)) % SPACE
    ensures Minus(a, b) == 0 <==> a == b
  {
  }

  lemma PlusPlus(a: nat, m: nat, n: nat)
    ensures ((a + m) % SPACE + n) % SPACE == (a + (m + n)) % SPACE
  {
    Protocol.WrappedPlus(a + m, n);
  }

  lemma HeadArrival<P>(r: Receiver<P>, irs: Word, m: Segment<P>)
    requires InOrder(r, irs) && m.sq == r.nxt
    ensures InOrder(Arrived(r, m), irs)
  {
    hide Arrived;
    ArrivedEffect(r, m);
    var r', d := Arrived(r, m), |r.delivered|;
    var n := |r'.delivered| - d;
    PlusPlus(irs, d, n);
    forall i: nat | i < |r'.delivered| ensures r'.delivered[i].sq == (irs + i) % SPACE {
      if i < d {
        assert r'.delivered[i] == r'.delivered[..d][i];
      } else {
        PlusPlus(irs, d, i - d);
        assert i > d ==> r.view[i - d] == Some(r'.delivered[d + (i - d)]);
      }
    }
    forall k: nat | 1 <= k < SIZE && r'.view[k].Some? ensures r'.view[k].value.sq == (r'.nxt + k) % SPACE {
      PlusPlus(r.nxt, n, k);
    }
  }

  lemma ArrivalInOrder<P>(r: Receiver<P>, irs: Word, m: Segment<P>)
    requires InOrder(r, irs)
    ensures InOrder(Arrived(r, m), irs)
  {
    PlusMinus(m.sq, r.nxt);
    if m.sq == r.nxt {
      HeadArrival(r, irs, m);
    }
  }

  /** For every sequence of arrivals, across the wrap of the sequence numbers, the slots hold
      what their offsets say and the user gets consecutively numbered segments. */
  lemma {:induction false} ArrivalsInOrder<P>(irs: Word, ms: seq<Segment<P>>)
    ensures InOrder(ArrivedAll(Receiver(irs, Blanks(SIZE), []), ms), irs)
  {
    if ms != [] {
      ArrivalsInOrder(irs, ms[..|ms| - 1]);
      ArrivalInOrder(ArrivedAll(Receiver(irs, Blanks(SIZE), []), ms[..|ms| - 1]), irs, ms[|ms| - 1]);
    }
  }

  // ----- nothing is forgotten

  /** Segment `i` of the connection has been delivered, or waits in its slot. */
  ghost predicate Held<P>(r: Receiver<P>, i: nat)
    requires |r.view| == SIZE
  {
    var d := |r.delivered|;
    i < d || (d < i < d + SIZE && r.view[i - d].Some?)
  }

  lemma HeldStays<P>(r: Receiver<P>, m: Segment<P>, i: nat)
    requires |r.view| == SIZE && Held(r, i)
    ensures Held(Arrived(r, m), i)
  {
    hide Arrived, Minus;
    ArrivedEffect(r, m);
  }

  lemma OwnOffset<P>(r: Receiver<P>, irs: Word, m: Segment<P>, i: nat)
    requires InOrder(r, irs) && m.sq == (irs + i) % SPACE && |r.delivered| <= i < |r.delivered| + SIZE
    ensures Minus(m.sq, r.nxt) == i - |r.delivered| && (m.sq == r.nxt <==> i == |r.delivered|)
  {
    hide Minus;
    Protocol.MinusNear(irs + i, irs + |r.delivered|);
    PlusMinus(m.sq, r.nxt);
  }

  lemma ArrivalHeld<P>(r: Receiver<P>, irs: Word, m: Segment<P>, i: nat)
    requires InOrder(r, irs) && m.sq == (irs + i) % SPACE && |r.delivered| <= i < |r.delivered| + SIZE
    ensures Held(Arrived(r, m), i)
  {
    hide Arrived, Minus;
    OwnOffset(r, irs, m, i);
    ArrivedEffect(r, m);
  }

  /** Segment `i` is among the arrivals, and lies inside the window, or before it, when it comes. */
  ghost predicate Came<P>(irs: Word, ms: seq<Segment<P>>, i: nat) {
    exists j: nat :: j < |ms| && CameAt(irs, ms, i, j)
  }

  ghost predicate CameAt<P>(irs: Word, ms: seq<Segment<P>>, i: nat, j: nat)
    requires j < |ms|
  {
    && ms[j].sq == (irs + i) % SPACE
    && i < |ArrivedAll(Receiver(irs, Blanks(SIZE), []), ms[..j]).delivered| + SIZE
  }

  lemma {:induction false} CameIsHeld<P>(irs: Word, ms: seq<Segment<P>>, i: nat, j: nat)
    requires j < |ms| && CameAt(irs, ms, i, j)
    ensures Held(ArrivedAll(Receiver(irs, Blanks(SIZE), []), ms), i)
    decreases |ms|
  {
    hide Held, Arrived;
    var last := |ms| - 1;
    var r := ArrivedAll(Receiver(irs, Blanks(SIZE), []), ms[..last]);
    if j < last {
      assert ms[..last][..j] == ms[..j];
      CameIsHeld(irs, ms[..last], i, j);
      HeldStays(r, ms[last], i);
    } else {
      ArrivalsInOrder(irs, ms[..last]);
      if i < |r.delivered| {
        DeliveredIsHeld(r, i);
        HeldStays(r, ms[last], i);
      } else {
        ArrivalHeld(r, irs, ms[last], i);
      }
    }
  }

  lemma DeliveredIsHeld<P>(r: Receiver<P>, i: nat)
    requires |r.view| == SIZE && i < |r.delivered|
    ensures Held(r, i)
  {
  }

  /** When the first `n` segments have all come, in whatever order and however often, and none lay
      beyond the window when it came, they are all delivered. */
  lemma NothingForgotten<P>(irs: Word, ms: seq<Segment<P>>, n: nat)
    requires forall i: nat :: i < n ==> Came(irs, ms, i)
    ensures |ArrivedAll(Receiver(irs, Blanks(SIZE), []), ms).delivered| >= n
  {
    hide ArrivedAll;
    var r := ArrivedAll(Receiver(irs, Blanks(SIZE), []), ms);
    var d := |r.delivered|;
    if d < n {
      assert Came(irs, ms, d);
      var j: nat :| j < |ms| && CameAt(irs, ms, d, j);
      CameIsHeld(irs, ms, d, j);
      assert false;
    }
  }
}
