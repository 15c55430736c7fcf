/** The window updates of network/include/xy_tcp_wnd_hdl.h and the sender's step of
    network/src/xy_tcp_send.cc.  Sequence numbers count segments.

    Three lines are modelled by what they are evidently meant to do: the number of
    acknowledged segments is taken from the old snd_una (xy_tcp_wnd_hdl.h:20-23 overwrites
    snd_una first), snd_wl1 is compared and not assigned in the window test (:26, whose
    comment at :27 says equality), and the head of the send ring is sent again with its own
    number snd_una (xy_tcp_send.cc:26-28 gives it a fresh one).  The sending loop stops when
    no buffer is waiting or the ring is full (xy_tcp_send.cc:30-33 tests neither). */
module SlidingWindow {
  import opened Common
  import opened Windows

  datatype Segment<+P> = Segment(sq: Word, payload: P)

  /** A segment's acknowledgment, sequence and window fields. */
  datatype AckFields = AckFields(ack: Word, sq: Word, win: nat)

  // ----- the sender's half of the control block

  /** `ring` are the buffers sent but not acknowledged, `pending` those not sent yet. */
  datatype Sender<+P> = Sender(una: Word, nxt: Word, wnd: nat, wl1: Word, wl2: Word, ring: seq<P>, pending: seq<P>)

  ghost predicate SenderOk<P>(s: Sender<P>) {
    |s.ring| < SIZE && |s.ring| == Minus(s.nxt, s.una)
  }

  predicate Accepts<P>(s: Sender<P>, ack: Word) {
    s.una < ack <= s.nxt
  }

  predicate Newer(wl1: Word, wl2: Word, h: AckFields) {
    wl1 < h.sq || (wl1 == h.sq && wl2 <= h.ack)
  }

  ghost function Acked<P>(s: Sender<P>, h: AckFields): (s': Sender<P>)
    requires SenderOk(s)
    ensures SenderOk(s')
  {
    if !Accepts(s, h.ack) then s
    else
      var s1 := s.(una := h.ack, ring := s.ring[h.ack - s.una..]);
      if Newer(s.wl1, s.wl2, h) then s1.(wnd := h.win, wl1 := h.sq, wl2 := h.ack) else s1
  }

  /** How many waiting buffers one call of tcp_send_buf sends. */
  ghost function Burst<P>(s: Sender<P>): (n: nat)
    requires |s.ring| < SIZE
    ensures n <= |s.pending| && |s.ring| + n < SIZE
  {
    var room := if s.wnd < SIZE - 1 then s.wnd else SIZE - 1;
    if room <= |s.ring| then 0
    else if room - |s.ring| <= |s.pending| then room - |s.ring| else |s.pending|
  }

  ghost function Transmitted<P>(s: Sender<P>): (s': Sender<P>)
    requires SenderOk(s)
    ensures SenderOk(s')
  {
    SentN(s, Burst(s))
  }

  /** The sender after the first `n` waiting buffers were sent. */
  ghost function SentN<P>(s: Sender<P>, n: nat): (s': Sender<P>)
    requires SenderOk(s) && n <= |s.pending| && |s.ring| + n < SIZE
    ensures SenderOk(s')
  {
    s.(nxt := (s.nxt + n) % SPACE, ring := s.ring + s.pending[..n], pending := s.pending[n..])
  }

  /** What goes out: the oldest unacknowledged buffer again, then the new ones. */
  ghost function Output<P>(s: Sender<P>, n: nat): (out: seq<Segment<P>>)
    requires n <= |s.pending|
  {
    (if s.ring == [] then [] else [Segment(s.una, s.ring[0])]) +
    seq(n, j requires 0 <= j < n => Segment((s.nxt + j) % SPACE, s.pending[j]))
  }

  lemma SentNothing<P>(s: Sender<P>)
    requires SenderOk(s)
    ensures SentN(s, 0) == s
    ensures Output(s, 0) == if s.ring == [] then [] else [Segment(s.una, s.ring[0])]
  {
  }

  lemma OutputNext<P>(s: Sender<P>, n: nat)
    requires n < |s.pending|
    ensures Output(s, n + 1) == Output(s, n) + [Segment((s.nxt + n) % SPACE, s.pending[n])]
  {
  }

  lemma SentNNext<P>(s: Sender<P>, n: nat)
    requires SenderOk(s) && n < |s.pending| && |s.ring| + n + 1 < SIZE
    ensures var t := SentN(s, n);
      && t.pending[0] == s.pending[n] && t.nxt == (s.nxt + n) % SPACE
      && SentN(s, n + 1) == t.(nxt := (t.nxt + 1) % SPACE, ring := t.ring + [t.pending[0]], pending := t.pending[1..])
  {
    hide Minus;
    var p := s.pending;
    assert p[n..][1..] == p[n + 1..] && p[n..][0] == p[n];
    assert s.ring + s.pending[..n] + [s.pending[n]] == s.ring + s.pending[..n + 1];
  }

  /** One turn of the sending loop: its guard, the state it leaves and what it sends. */
  lemma SentNext<P>(s: Sender<P>, n: nat)
    requires SenderOk(s) && n <= Burst(s)
    ensures var t := SentN(s, n);
      && |t.ring| == |s.ring| + n
      && (n < Burst(s) <==> |t.ring| < s.wnd && |t.pending| > 0 && |t.ring| < SIZE - 1)
      && (n < Burst(s) ==>
        && SentN(s, n + 1) == t.(nxt := (t.nxt + 1) % SPACE, ring := t.ring + [t.pending[0]], pending := t.pending[1..])
        && Output(s, n + 1) == Output(s, n) + [Segment(t.nxt, t.pending[0])])
  {
    hide Output;
    if n < Burst(s) {
      SentNNext(s, n);
      OutputNext(s, n);
    }
  }

  /** What one call of tcp_send_buf sends and keeps: first the oldest unacknowledged buffer with its
      own number, then as many waiting buffers, each with the next number, as window, ring and list
      allow. */
  lemma TransmittedEffect<P>(s: Sender<P>)
    requires SenderOk(s)
    ensures var n := if s.wnd <= |s.ring| then 0 else Min(Min(s.wnd, SIZE - 1) - |s.ring|, |s.pending|);
      var t, out, r := Transmitted(s), Output(s, Burst(s)), if s.ring == [] then 0 else 1;
      && t.ring == s.ring + s.pending[..n] && t.pending == s.pending[n..] && t.nxt == (s.nxt + n) % SPACE
      && t.una == s.una && t.wnd == s.wnd && t.wl1 == s.wl1 && t.wl2 == s.wl2
      && |out| == r + n && (r == 1 ==> out[0] == Segment(s.una, s.ring[0]))
      && forall j :: 0 <= j < n ==> out[r + j] == Segment((s.nxt + j) % SPACE, s.pending[j])
  {
  }

  /** What an acknowledgment does: one of segments in flight drops exactly these from the ring, and
      the window is taken from it exactly when it is not older; any other changes nothing. */
  lemma AckedEffect<P>(s: Sender<P>, h: AckFields)
    requires SenderOk(s)
    ensures var s' := Acked(s, h);
      if s.una < h.ack <= s.nxt then
        && s'.una == h.ack && s'.nxt == s.nxt && s'.pending == s.pending && s'.ring == s.ring[h.ack - s.una..]
        && (if s.wl1 < h.sq || (s.wl1 == h.sq && s.wl2 <= h.ack)
            then s'.wnd == h.win && s'.wl1 == h.sq && s'.wl2 == h.ack
            else s'.wnd == s.wnd && s'.wl1 == s.wl1 && s'.wl2 == s.wl2)
      else s' == s
  {
  }

  // ----- the three lines as they are written

  /** tcp_ack_window_update to the letter: snd_una is overwritten first, so that nothing is
      erased, and snd_wl1 is assigned the outcome of the test after it. */
  ghost function AckedAsWritten<P>(s: Sender<P>, h: AckFields): Sender<P> {
    if !Accepts(s, h.ack) then s
    else
      var s1 := s.(una := h.ack);
      if s.wl1 < h.sq || (h.sq != 0 && s.wl2 <= h.ack) then s1.(wnd := h.win, wl1 := h.sq, wl2 := h.ack)
      else s1.(wl1 := 0)
  }

  /** It loses the agreement of ring and numbers with every acknowledgment it accepts. */
  lemma AckedAsWrittenIff<P>(s: Sender<P>, h: AckFields)
    requires SenderOk(s)
    ensures SenderOk(AckedAsWritten(s, h)) <==> !Accepts(s, h.ack)
  {
  }

  /** The resend of tcp_send_buf to the letter: the head of the ring goes out with a fresh number. */
  ghost function ResentAsWritten<P>(s: Sender<P>): Sender<P> {
    if s.ring == [] then s else s.(nxt := (s.nxt + 1) % SPACE)
  }

  lemma ResentAsWrittenIff<P>(s: Sender<P>)
    requires SenderOk(s)
    ensures SenderOk(ResentAsWritten(s)) <==> s.ring == []
  {
  }

  lemma FirstBurst<P>(s: Sender<P>)
    requires SenderOk(s) && s.ring == [] && s.pending != [] && s.wnd > 0
    ensures Burst(s) > 0 && Transmitted(s).ring == s.pending[..Burst(s)]
  {
    assert [] + s.pending[..Burst(s)] == s.pending[..Burst(s)];
  }

  /** Both fail with the first segments of every connection: a second call of tcp_send_buf before
      they are acknowledged, and any acknowledgment of them. */
  lemma FirstSegmentFails<P>(s: Sender<P>, h: AckFields)
    requires SenderOk(s) && s.ring == [] && s.pending != [] && s.wnd > 0
    ensures var t := Transmitted(s);
      !SenderOk(ResentAsWritten(t)) && (Accepts(t, h.ack) ==> !SenderOk(AckedAsWritten(t, h)))
  {
    hide Burst, Transmitted, SentN, AckedAsWritten, ResentAsWritten, SenderOk;
    FirstBurst(s);
    AckedAsWrittenIff(Transmitted(s), h);
    ResentAsWrittenIff(Transmitted(s));
  }

  /** How often tcp_send_buf as written goes round its loop, which looks at the window only. */
  function BurstAsWritten<P>(s: Sender<P>): nat {
    if s.wnd > |s.ring| then s.wnd - |s.ring| else 0
  }

  /** It sends the buffers that wait and fit, and no others, exactly when the window is full or asks
      for no more than are waiting and the ring can hold. */
  lemma BurstAsWrittenIff<P>(s: Sender<P>)
    requires |s.ring| < SIZE
    ensures BurstAsWritten(s) == Burst(s)
      <==> s.wnd <= |s.ring| || (s.wnd < SIZE && s.wnd - |s.ring| <= |s.pending|)
  {
  }

  // ----- the receiver's half

  datatype Receiver<+P> = Receiver(nxt: Word, view: seq<Option<Segment<P>>>, delivered: seq<Segment<P>>)

  /** tcp_recv_window_update on the windows' meanings */
  ghost function Arrived<P>(r: Receiver<P>, m: Segment<P>): (r': Receiver<P>)
    requires |r.view| == SIZE
    ensures |r'.view| == SIZE
  {
    var view := Admitted(r.view, Minus(m.sq, r.nxt), m);
    if m.sq != r.nxt then r.(view := view)
    else Receiver((r.nxt + Run(view)) % SPACE, Collected(view), r.delivered + Values(view[..Run(view)]))
  }

  /** What one segment does: the expected one is delivered with all that waits behind it without a
      gap, and the rest of the window moves up; any other inside the window waits in its own slot,
      and every other slot keeps what it holds. */
  lemma ArrivedEffect<P>(r: Receiver<P>, m: Segment<P>)
    requires |r.view| == SIZE
    ensures m.sq != r.nxt ==>
      var r', o := Arrived(r, m), Minus(m.sq, r.nxt);
      && r'.nxt == r.nxt && r'.delivered == r.delivered
      && forall k :: 0 <= k < SIZE ==> r'.view[k] == if o <= SIZE && k == o % SIZE then Some(m) else r.view[k]
    ensures m.sq == r.nxt ==>
      var r' := Arrived(r, m); var d, n := |r.delivered|, |r'.delivered| - |r.delivered|;
      && 1 <= n <= SIZE && r'.nxt == (r.nxt + n) % SPACE && (n < SIZE ==> r.view[n].None?)
      && r'.delivered[..d] == r.delivered && r'.delivered[d] == m
      && (forall k :: 1 <= k < n ==> r.view[k] == Some(r'.delivered[d + k]))
      && forall k :: 0 <= k < SIZE ==> r'.view[k] == if k + n < SIZE then r.view[k + n] else None
  {
    hide Collected;
    if m.sq == r.nxt {
      CollectedAt(Admitted(r.view, 0, m));
    }
  }

  /** As written, state_tcp_otherwise also puts a segment without data into the window.  That leaves
      the receiver as it was exactly when the number lies beyond the window; at the number expected
      it uses that number up, so that the text with this number is turned down. */
  lemma EmptySegmentAsWrittenIff<P>(r: Receiver<P>, empty: Segment<P>, text: Segment<P>)
    requires |r.view| == SIZE && Some(empty) !in r.view && text.sq == empty.sq
    ensures Arrived(r, empty) == r <==> Minus(empty.sq, r.nxt) > SIZE
    ensures empty.sq == r.nxt ==> Arrived(Arrived(r, empty), text) == Arrived(r, empty)
  {
    var offset := Minus(empty.sq, r.nxt);
    var view := Admitted(r.view, offset, empty);
    if offset <= SIZE {
      var k := if offset == SIZE then 0 else offset;
      assert view[k] == Some(empty) && r.view[k] != Some(empty);
    }
    if empty.sq == r.nxt {
      assert view[0].Some? && Run(view) > 0;
      assert Minus(text.sq, Arrived(r, empty).nxt) > SIZE;
    }
  }

  /** tcp_recv_window_update, on the receive window, rcv_nxt and rcv_buf_list of a control block */
  method UpdateReceiver<P(0)>(window: RcvWindow<Segment<P>>, rcvNxt: Word, list: seq<Segment<P>>, m: Segment<P>)
    returns (rcvNxt': Word, list': seq<Segment<P>>)
    requires window.Valid()
    modifies window`head, window.buffer
    ensures window.Valid()
    ensures Receiver(rcvNxt', window.View(), list') == Arrived(Receiver(rcvNxt, old(window.View()), list), m)
  {
    hide Collected, Run, Rotated, Put, HandedOver;
    rcvNxt', list' := rcvNxt, list;
    var put := window.TryPut(rcvNxt, m.sq, m);
    if put {
      if m.sq == rcvNxt {
        var count;
        count, list' := window.Collect(list);
        rcvNxt' := (rcvNxt + count) % SPACE;
      }
    }
  }

  // ----- the control block

  class Tcb<P(0)> {
    var sndUna: Word
    var sndNxt: Word
    var sndWnd: nat
    var sndWl1: Word
    var sndWl2: Word
    var rcvNxt: Word
    var rcvBufList: seq<Segment<P>>
    var sndBufList: seq<P>
    const rcvWndBuffer: RcvWindow<Segment<P>>
    const sndWndBuffer: SndWindow<P>

    ghost predicate Valid()
      reads this, rcvWndBuffer, sndWndBuffer, rcvWndBuffer.buffer, sndWndBuffer.buffer
    {
      && rcvWndBuffer.Valid() && sndWndBuffer.Valid()
      && rcvWndBuffer.buffer as object != sndWndBuffer.buffer
      && SenderOk(SenderView())
    }

    ghost function SenderView(): Sender<P>
      requires sndWndBuffer.Valid()
      reads this, sndWndBuffer, sndWndBuffer.buffer
    {
      Sender(sndUna, sndNxt, sndWnd, sndWl1, sndWl2, sndWndBuffer.Contents(), sndBufList)
    }

    ghost function ReceiverView(): Receiver<P>
      requires rcvWndBuffer.Valid()
      reads this, rcvWndBuffer, rcvWndBuffer.buffer
    {
      Receiver(rcvNxt, rcvWndBuffer.View(), rcvBufList)
    }

    /** An established connection with nothing in flight */
    constructor (sndNxt: Word, sndWnd: nat, rcvNxt: Word)
      ensures Valid()
      ensures SenderView() == Sender(sndNxt, sndNxt, sndWnd, 0, 0, [], [])
      ensures ReceiverView() == Receiver(rcvNxt, Blanks(SIZE), [])
    {
      sndUna, this.sndNxt, this.sndWnd, sndWl1, sndWl2 := sndNxt, sndNxt, sndWnd, 0, 0;
      this.rcvNxt, rcvBufList, sndBufList := rcvNxt, [], [];
      rcvWndBuffer := new RcvWindow<Segment<P>>();
      sndWndBuffer := new SndWindow<P>();
    }

    /** tcp_ack_window_update */
    method AckWindowUpdate(h: AckFields)
      requires Valid()
      modifies this`sndUna, this`sndWnd, this`sndWl1, this`sndWl2, sndWndBuffer`head
      ensures Valid() && SenderView() == Acked(old(SenderView()), h)
    {
      hide SndWindow.Contents;
      if sndUna < h.ack && h.ack <= sndNxt {
        var n := h.ack - sndUna;
        sndUna := h.ack;
        var _ := sndWndBuffer.Erase(n);
        if sndWl1 < h.sq || (sndWl1 == h.sq && sndWl2 <= h.ack) {
          sndWnd := h.win;
          sndWl1 := h.sq;
          sndWl2 := h.ack;
        }
      }
    }

    /** tcp_recv_window_update */
    method RecvWindowUpdate(m: Segment<P>)
      requires Valid()
      modifies this`rcvNxt, this`rcvBufList, rcvWndBuffer`head, rcvWndBuffer.buffer
      ensures Valid() && ReceiverView() == Arrived(old(ReceiverView()), m)
    {
      hide Arrived;
      rcvNxt, rcvBufList := UpdateReceiver(rcvWndBuffer, rcvNxt, rcvBufList, m);
    }

    /** tcp_send_buf */
    method SendBuf() returns (out: seq<Segment<P>>)
      requires Valid()
      modifies this`sndNxt, this`sndBufList, sndWndBuffer`tail, sndWndBuffer.buffer
      ensures Valid() && SenderView() == Transmitted(old(SenderView()))
      ensures out == Output(old(SenderView()), Burst(old(SenderView())))
    {
      hide SentN, Output, Burst, RcvWindow.View, SndWindow.Contents, SndWindow.Size, SndWindow.Oldest;
      ghost var s := SenderView();
      ghost var n := 0;
      SentNothing(s);
      SentNext(s, 0);
      var size := sndWndBuffer.Size();
      out := [];
      if size > 0 {
        out := [Segment(sndUna, sndWndBuffer.Oldest())];
      }
      while size < sndWnd && |sndBufList| > 0 && size < SIZE - 1
        invariant sndWndBuffer.Valid() && n <= Burst(s) && size == |s.ring| + n
        invariant SenderView() == SentN(s, n) && out == Output(s, n)
        decreases |sndBufList|
      {
        SentNext(s, n);
        var m := sndBufList[0];
        sndBufList := sndBufList[1..];
        sndWndBuffer.Add(m);
        out := out + [Segment(sndNxt, m)];
        sndNxt := (sndNxt + 1) % SPACE;
        size := size + 1;
        n := n + 1;
      }
      SentNext(s, n);
    }
  }
}
