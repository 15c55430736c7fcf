/** The byte stream of queue/src/xy_syn_api.cc: xy_syn_send cuts the user's bytes into
    segments, xy_syn_recv reads them back through a cursor that may stop inside a segment.

    Two places are modelled by what they are evidently meant to do: a receive takes segments
    from rcv_buf_list (xy_syn_api.cc:179 takes them from snd_buf_list), and it asks for less
    after it has used up a segment (:203-209 does not lower `len`). */
module ByteStream {
  import opened Common
  import opened Windows
  import SlidingWindow
  import Protocol

  type Byte = bv8

  type Text = seq<Byte>

  /** XY_TCP_MAX_DATA_LEN: an Ethernet MTU of 1500 without the IP and the TCP header */
  const MAX_DATA_LEN: nat := 1500 - 20 - 20

  function Concat(segs: seq<Text>): Text {
    if segs == [] then [] else segs[0] + Concat(segs[1..])
  }

  lemma {:induction false} ConcatPlus(a: seq<Text>, b: seq<Text>)
    ensures Concat(a + b) == Concat(a) + Concat(b)
  {
    if a == [] {
      assert a + b == b;
    } else {
      assert (a + b)[0] == a[0] && (a + b)[1..] == a[1..] + b;
      ConcatPlus(a[1..], b);
      assert a[0] + (Concat(a[1..]) + Concat(b)) == a[0] + Concat(a[1..]) + Concat(b);
    }
  }

  lemma NothingLeft()
    ensures Concat([]) == []
  {
  }

  lemma FirstSegment(segs: seq<Text>)
    requires segs != []
    ensures Concat(segs) == segs[0] + Concat(segs[1..])
  {
  }

  lemma ConcatOne(s: Text)
    ensures Concat([s]) == s
  {
    assert [s][1..] == [];
  }

  /** The segments of one send. */
  function Chunks(buf: Text): seq<Text> {
    if buf == [] then []
    else if |buf| <= MAX_DATA_LEN then [buf]
    else [buf[..MAX_DATA_LEN]] + Chunks(buf[MAX_DATA_LEN..])
  }

  ghost predicate GoodSegments(segs: seq<Text>) {
    forall i :: 0 <= i < |segs| ==> 0 < |segs[i]| <= MAX_DATA_LEN
  }

  /** Segments are non-empty, none is too long, only the last may be short, and together they
      are the bytes sent. */
  lemma {:induction false} ChunksAreTheBytes(buf: Text)
    ensures var c := Chunks(buf);
      && GoodSegments(c) && Concat(c) == buf
      && (forall i :: 0 <= i < |c| - 1 ==> |c[i]| == MAX_DATA_LEN)
  {
    if |buf| > MAX_DATA_LEN {
      var first, rest := buf[..MAX_DATA_LEN], buf[MAX_DATA_LEN..];
      ChunksAreTheBytes(rest);
      assert Chunks(buf)[1..] == Chunks(rest);
      assert buf == first + rest;
    } else if buf != [] {
      ConcatOne(buf);
    }
  }

  /** One turn of the sending loop. */
  lemma ChunksStep(buf: Text, n: nat)
    requires buf != [] && n == Min(MAX_DATA_LEN, |buf|)
    ensures Chunks(buf) == [buf[..n]] + Chunks(buf[n..])
  {
    if |buf| <= MAX_DATA_LEN {
      assert buf[..n] == buf && buf[n..] == [];
      NoChunks();
    }
  }

  lemma NoChunks()
    ensures Chunks([]) == []
  {
  }

  lemma DropOn(s: Text, i: nat, n: nat)
    requires i + n <= |s|
    ensures s[i..][n..] == s[i + n..]
  {
  }

  lemma Nothing<T>(a: seq<T>, b: seq<T>)
    ensures a + [] == a && [] + b == b
  {
  }

  /** Part of the segment at the cursor is read, and all of it. */
  lemma ReadPart(c: Text, rest: Text, want: nat)
    requires want <= |c|
    ensures c + rest == c[..want] + (c[want..] + rest)
  {
    assert c == c[..want] + c[want..];
  }

  lemma ReadAll(stream: Text, out: Text, rest: Text, len: nat)
    requires stream == out + rest && |out| <= len && (|out| == len || rest == [])
    ensures var n := Min(len, |stream|);
      |out| == n && out == stream[..n] && rest == stream[n..]
  {
  }

  lemma SegmentsPlus(a: seq<Text>, b: seq<Text>)
    requires GoodSegments(a) && GoodSegments(b)
    ensures GoodSegments(a + b) && Concat(a + b) == Concat(a) + Concat(b)
  {
    ConcatPlus(a, b);
  }

  lemma Assoc<T>(a: seq<T>, b: seq<T>, c: seq<T>)
    ensures a + (b + c) == a + b + c
  {
  }

  // ----- the receiving loop as it is written

  /** What the loop returns when `len` is not lowered after a used-up segment: `segs` are the rest of
      the segment at the cursor and the segments that wait. */
  function CountAsWritten(segs: seq<Text>, len: nat): nat {
    if segs == [] then 0
    else if |segs[0]| >= len then len
    else |segs[0]| + CountAsWritten(segs[1..], len)
  }

  /** The loop uses up every segment shorter than `len`, and then takes `len` from the first other. */
  lemma {:induction false} CountAsWrittenBounds(segs: seq<Text>, len: nat)
    ensures CountAsWritten(segs, len) >= Min(len, |Concat(segs)|)
    ensures |Concat(segs)| <= len ==> CountAsWritten(segs, len) == |Concat(segs)|
    ensures GoodSegments(segs) && CountAsWritten(segs, len) <= len ==> |Concat(segs)| <= len || |segs[0]| >= len
  {
    if segs != [] && |segs[0]| < len {
      CountAsWrittenBounds(segs[1..], len);
    }
  }

  /** It returns min(len, unread) exactly when no more than `len` bytes are unread, or the segment
      that is read from holds that many. */
  lemma CountAsWrittenIff(segs: seq<Text>, len: nat)
    requires GoodSegments(segs)
    ensures CountAsWritten(segs, len) == Min(len, |Concat(segs)|)
      <==> |Concat(segs)| <= len || |segs[0]| >= len
  {
    CountAsWrittenBounds(segs, len);
  }

  /** What the calls return: the number of bytes, or EINVAL. */
  datatype Status = Moved(n: nat) | Invalid

  /** A socket's bytes: what its user has written and how that was cut up, and what has arrived,
      split into what the user has read and what not. */
  datatype Bytes = Bytes(written: Text, queued: seq<Text>, arrived: seq<Text>, got: Text, unread: Text)

  const NO_BYTES := Bytes([], [], [], [], [])

  ghost predicate BytesOk(b: Bytes) {
    GoodSegments(b.queued) && Concat(b.queued) == b.written && b.got + b.unread == Concat(b.arrived)
  }

  /** xy_syn_send */
  function Sending(b: Bytes, buf: Text): Bytes {
    b.(written := b.written + buf, queued := b.queued + Chunks(buf))
  }

  /** The receive window hands over segments. */
  function Delivering(b: Bytes, segs: seq<Text>): Bytes {
    b.(arrived := b.arrived + segs, unread := b.unread + Concat(segs))
  }

  /** xy_syn_recv */
  function Receiving(b: Bytes, len: nat): Bytes {
    var n := Min(len, |b.unread|);
    b.(got := b.got + b.unread[..n], unread := b.unread[n..])
  }

  lemma SendingOk(b: Bytes, buf: Text)
    requires BytesOk(b)
    ensures BytesOk(Sending(b, buf))
  {
    ChunksAreTheBytes(buf);
    SegmentsPlus(b.queued, Chunks(buf));
  }

  lemma DeliveringOk(b: Bytes, segs: seq<Text>)
    requires BytesOk(b)
    ensures BytesOk(Delivering(b, segs))
  {
    hide GoodSegments;
    ConcatPlus(b.arrived, segs);
    Assoc(b.got, b.unread, Concat(segs));
  }

  lemma ReceivingOk(b: Bytes, len: nat)
    requires BytesOk(b)
    ensures BytesOk(Receiving(b, len))
  {
    hide GoodSegments, Concat;
    var n := Min(len, |b.unread|);
    Assoc(b.got, b.unread[..n], b.unread[n..]);
    assert b.unread[..n] + b.unread[n..] == b.unread;
  }

  /** The parts of a socket that carry bytes; the ghost fields are its history. */
  class ByteSocket {
    var established: bool
    var sndBufList: seq<Text>
    var rcvBufList: seq<Text>
    var cursor: Option<Text>
    ghost var written: Text
    ghost var queued: seq<Text>
    ghost var arrived: seq<Text>
    ghost var got: Text

    /** What is left of the segment being read. */
    function Left(): Text
      reads this`cursor
    {
      if cursor.Some? then cursor.value else []
    }

    /** All that has arrived and was not read yet. */
    function Unread(): Text
      reads this`cursor, this`rcvBufList
    {
      Left() + Concat(rcvBufList)
    }

    ghost function View(): Bytes
      reads this
    {
      Bytes(written, queued, arrived, got, Unread())
    }

    ghost predicate Valid()
      reads this
    {
      BytesOk(View())
    }

    constructor ()
      ensures Valid() && View() == NO_BYTES && sndBufList == []
    {
      established, sndBufList, rcvBufList, cursor := true, [], [], None;
      written, queued, arrived, got := [], [], [], [];
    }

    /** xy_syn_send */
    method Send(buf: Text) returns (ret: Status)
      requires Valid()
      modifies this`sndBufList, this`written, this`queued
      ensures Valid()
      ensures ret == if established then Moved(|buf|) else Invalid
      ensures sndBufList == old(sndBufList) + if established then Chunks(buf) else []
      ensures View() == if established then Sending(old(View()), buf) else old(View())
      ensures written == old(written) + if established then buf else []
    {
      hide Chunks, BytesOk, ByteSocket.Unread;
      SendingOk(View(), buf);
      if !established {
        return Invalid;
      }
      var rest, sent := buf, 0;
      ghost var done, list: seq<Text> := [], sndBufList;
      Nothing(list, Chunks(buf));
      while |rest| > 0
        invariant sent <= |buf| && rest == buf[sent..]
        invariant done + Chunks(rest) == Chunks(buf) && sndBufList == list + done
        modifies this`sndBufList
        decreases |rest|
      {
        var dataLen := if MAX_DATA_LEN < |rest| then MAX_DATA_LEN else |rest|;
        ChunksStep(rest, dataLen);
        Assoc(done, [rest[..dataLen]], Chunks(rest[dataLen..]));
        Assoc(list, done, [rest[..dataLen]]);
        DropOn(buf, sent, dataLen);
        sndBufList := sndBufList + [rest[..dataLen]];
        done := done + [rest[..dataLen]];
        rest := rest[dataLen..];
        sent := sent + dataLen;
      }
      NoChunks();
      assert rest == [];
      Nothing(done, done);
      written, queued := written + buf, queued + Chunks(buf);
      return Moved(sent);
    }

    /** The receive window delivers segments to rcv_buf_list. */
    method Deliver(segs: seq<Text>)
      requires Valid()
      modifies this`rcvBufList, this`arrived
      ensures Valid() && rcvBufList == old(rcvBufList) + segs
      ensures View() == Delivering(old(View()), segs)
      ensures Unread() == old(Unread()) + Concat(segs) && arrived == old(arrived) + segs
    {
      hide Concat, BytesOk;
      DeliveringOk(View(), segs);
      ConcatPlus(rcvBufList, segs);
      Assoc(Left(), Concat(rcvBufList), Concat(segs));
      rcvBufList, arrived := rcvBufList + segs, arrived + segs;
    }

    /** The first part of the receiving loop's body: at the end of a segment the next one is taken. */
    method Refill() returns (some: bool)
      modifies this`rcvBufList, this`cursor
      ensures Unread() == old(Unread())
      ensures if some then cursor.Some? else Unread() == []
      ensures some && |rcvBufList| >= |old(rcvBufList)| ==>
        rcvBufList == old(rcvBufList) && cursor == old(cursor) && |cursor.value| > 0
    {
      hide Concat;
      if cursor.None? || |cursor.value| == 0 {
        if rcvBufList == [] {
          NothingLeft();
          return false;
        }
        FirstSegment(rcvBufList);
        cursor, rcvBufList := Some(rcvBufList[0]), rcvBufList[1..];
      }
      return true;
    }

    /** The second part: bytes are copied, and a segment that is used up is given back. */
    method Copy(want: nat) returns (piece: Text)
      requires cursor.Some?
      modifies this`cursor
      ensures piece + Unread() == old(Unread()) && |piece| == Min(want, |old(cursor).value|)
      ensures |old(cursor).value| < want ==> cursor == None
    {
      hide Concat;
      ReadPart(cursor.value, Concat(rcvBufList), Min(want, |cursor.value|));
      if |cursor.value| >= want {
        piece := cursor.value[..want];
        cursor := Some(cursor.value[want..]);
      } else {
        piece := cursor.value;
        cursor := None;
      }
    }

    /** xy_syn_recv: the first `len` unread bytes, or all of them when there are fewer. */
    method Recv(len: nat) returns (ret: Status, out: Text)
      requires Valid()
      modifies this`rcvBufList, this`cursor, this`got
      ensures Valid()
      ensures !established ==> ret == Invalid && out == [] && View() == old(View())
      ensures established ==> var n := Min(len, |old(Unread())|);
        ret == Moved(n) && out == old(Unread())[..n] && View() == Receiving(old(View()), len)
      ensures old(Unread()) == out + Unread() && got == old(got) + out
    {
      hide BytesOk, ByteSocket.Unread;
      ReceivingOk(View(), len);
      out := [];
      if !established {
        return Invalid, out;
      }
      ghost var stream := Unread();
      var want: nat := len;
      while true
        invariant stream == out + Unread() && |out| + want == len
        modifies this`rcvBufList, this`cursor
        decreases |rcvBufList|, |Left()|
      {
        var some := Refill();
        if !some {
          break;
        }
        var filled := |cursor.value| >= want;
        var piece := Copy(want);
        Assoc(out, piece, Unread());
        out := out + piece;
        want := want - |piece|;
        if filled {
          break;
        }
      }
      ReadAll(stream, out, Unread(), len);
      assert stream == out + Unread();
      got := got + out;
      return Moved(|out|), out;
    }
  }

  // ----- from one user to the other

  function Payloads(d: seq<SlidingWindow.Segment<Text>>): seq<Text> {
    seq(|d|, j requires 0 <= j < |d| => d[j].payload)
  }

  lemma PayloadsPlus(d: seq<SlidingWindow.Segment<Text>>, d': seq<SlidingWindow.Segment<Text>>)
    requires d <= d'
    ensures Payloads(d') == Payloads(d) + Payloads(d'[|d|..])
  {
  }

  lemma {:induction false} ConcatPrefix(a: seq<Text>, b: seq<Text>)
    requires a <= b
    ensures Concat(a) <= Concat(b)
  {
    assert b == a + b[|a|..];
    ConcatPlus(a, b[|a|..]);
  }

  /** One direction of a connection: the writing and the reading socket and the protocol between
      them, with its network. */
  datatype System = System(w: Bytes, r: Bytes, p: Protocol.State<Text>)

  ghost predicate Start(s: System) {
    s.w == s.r == NO_BYTES && Protocol.Init(s.p)
  }

  ghost function Queued(p: Protocol.State<Text>, segs: seq<Text>): Protocol.State<Text> {
    p.(queued := p.queued + segs, snd := p.snd.(pending := p.snd.pending + segs))
  }

  /** What the receive window has handed over since. */
  function Fresh(d: seq<SlidingWindow.Segment<Text>>, d': seq<SlidingWindow.Segment<Text>>): seq<Text> {
    if |d| <= |d'| then Payloads(d'[|d|..]) else []
  }

  /** A user sends, a user receives and gets `out`, or the protocol takes a step that queues nothing. */
  datatype Event = Send(buf: Text) | Receive(len: nat, out: Text) | Transport(step: Protocol.Step<Text>)

  ghost predicate NextEvent(s: System, s': System, e: Event) {
    match e
    case Send(buf) => s' == System(Sending(s.w, buf), s.r, Queued(s.p, Chunks(buf)))
    case Receive(len, out) => out == s.r.unread[..Min(len, |s.r.unread|)] && s' == s.(r := Receiving(s.r, len))
    case Transport(step) =>
      && !step.Queue? && Protocol.NextStep(s.p, s'.p, step)
      && s' == System(s.w, Delivering(s.r, Fresh(s.p.rcv.delivered, s'.p.rcv.delivered)), s'.p)
  }

  /** The states of a run, and the events between them. */
  ghost predicate IsRun(run: seq<System>, es: seq<Event>) {
    && |run| == |es| + 1 && Start(run[0])
    && forall i :: 0 <= i < |es| ==> NextEvent(run[i], run[i + 1], es[i])
  }

  /** All that was sent in a run, and all that was received. */
  function Inputs(es: seq<Event>): Text {
    if es == [] then [] else Inputs(es[..|es| - 1]) + if es[|es| - 1].Send? then es[|es| - 1].buf else []
  }

  function Outputs(es: seq<Event>): Text {
    if es == [] then [] else Outputs(es[..|es| - 1]) + if es[|es| - 1].Receive? then es[|es| - 1].out else []
  }

  ghost predicate SystemInv(s: System) {
    && BytesOk(s.w) && BytesOk(s.r) && Protocol.Inv(s.p)
    && s.p.queued == s.w.queued && Payloads(s.p.rcv.delivered) == s.r.arrived
  }

  /** A send is as many Queue steps of the protocol as it has segments. */
  lemma {:induction false} QueuedKeepsInv(p: Protocol.State<Text>, segs: seq<Text>)
    requires Protocol.Inv(p)
    ensures Protocol.Inv(Queued(p, segs))
    decreases |segs|
  {
    hide Protocol.Inv;
    if segs == [] {
      assert Queued(p, segs) == p;
    } else {
      var p1 := Queued(p, [segs[0]]);
      Protocol.QueueKeepsInv(p, p1, segs[0]);
      QueuedKeepsInv(p1, segs[1..]);
      Assoc(p.queued, [segs[0]], segs[1..]);
      Assoc(p.snd.pending, [segs[0]], segs[1..]);
      assert [segs[0]] + segs[1..] == segs;
    }
  }

  /** What a step of the protocol hands over and queues. */
  lemma TransportStep(p: Protocol.State<Text>, p': Protocol.State<Text>, step: Protocol.Step<Text>)
    requires Protocol.Inv(p) && Protocol.NextStep(p, p', step) && !step.Queue?
    ensures Protocol.Inv(p') && p'.queued == p.queued && p.rcv.delivered <= p'.rcv.delivered
  {
    hide Protocol.Inv, Protocol.NextStep;
    assert Protocol.Next(p, p');
    Protocol.StepKeepsInv(p, p');
    Protocol.QueuesOnlyByQueue(p, p', step);
  }

  lemma TransportKeepsInv(s: System, s': System, step: Protocol.Step<Text>)
    requires SystemInv(s) && NextEvent(s, s', Transport(step))
    ensures SystemInv(s')
  {
    hide Protocol.Inv, BytesOk, Protocol.NextStep, Payloads;
    TransportStep(s.p, s'.p, step);
    PayloadsPlus(s.p.rcv.delivered, s'.p.rcv.delivered);
    DeliveringOk(s.r, Fresh(s.p.rcv.delivered, s'.p.rcv.delivered));
  }

  lemma NextKeepsInv(s: System, s': System, e: Event)
    requires SystemInv(s) && NextEvent(s, s', e)
    ensures SystemInv(s')
    ensures s'.w.written == s.w.written + if e.Send? then e.buf else []
    ensures s'.r.got == s.r.got + if e.Receive? then e.out else []
  {
    hide Protocol.Inv, BytesOk, Protocol.NextStep, Payloads;
    match e
    case Send(buf) =>
      SendingOk(s.w, buf);
      QueuedKeepsInv(s.p, Chunks(buf));
    case Receive(len, _) => ReceivingOk(s.r, len);
    case Transport(step) => TransportKeepsInv(s, s', step);
  }

  lemma {:induction false} RunsKeepInv(run: seq<System>, es: seq<Event>)
    requires IsRun(run, es)
    ensures var s := run[|es|];
      SystemInv(s) && s.w.written == Inputs(es) && s.r.got == Outputs(es)
    decreases |es|
  {
    hide NextEvent, SystemInv;
    if es == [] {
      StartInv(run[0]);
    } else {
      var last := |es| - 1;
      RunsKeepInv(run[..last + 1], es[..last]);
      NextKeepsInv(run[last], run[last + 1], es[last]);
    }
  }

  lemma StartInv(s: System)
    requires Start(s)
    ensures SystemInv(s)
  {
    Protocol.InitInv(s.p);
  }

  /** In every run, all that the receives returned, in order, is a prefix of all that was sent; it
      still is with the bytes that wait to be read; and when the receive window has handed over every
      segment these are all that was sent. */
  lemma ReadIsPrefixOfWritten(run: seq<System>, es: seq<Event>)
    requires IsRun(run, es)
    ensures var s := run[|es|];
      && Outputs(es) <= Outputs(es) + s.r.unread <= Inputs(es)
      && (|s.p.rcv.delivered| == |s.p.queued| ==> Outputs(es) + s.r.unread == Inputs(es))
  {
    hide Protocol.Inv, Payloads;
    RunsKeepInv(run, es);
    var s := run[|es|];
    Protocol.DeliveredInOrder(s.p);
    PayloadsAt(s.p.rcv.delivered);
    assert s.r.arrived <= s.w.queued;
    assert |s.r.arrived| == |s.w.queued| ==> s.r.arrived == s.w.queued;
    ConcatPrefix(s.r.arrived, s.w.queued);
  }

  lemma PayloadsAt(d: seq<SlidingWindow.Segment<Text>>)
    ensures |Payloads(d)| == |d| && forall j :: 0 <= j < |d| ==> Payloads(d)[j] == d[j].payload
  {
  }
}
