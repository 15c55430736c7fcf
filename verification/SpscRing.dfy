/** The lock-free ring of queue/include/xy_ring.h: one producer in xy_spsc_ring_add, one
    consumer in xy_spsc_ring_peek and xy_spsc_ring_del, every load and store one atomic step.
    Between its steps a thread keeps the index values it has read, however stale.

    xy_spsc_ring_del returns its argument `n` unreduced when head <= tail (xy_ring.h:60-61);
    the model returns the number of elements removed in both branches.  `CountAsWritten` is
    the returned value as the code has it, and `CountAsWrittenIff` says when the two agree. */
module SpscRing {
  import opened Common

  const SIZE: nat := 0x1_0000
  const WORD: nat := 0x1_0000_0000_0000_0000

  /** A stored pointer. */
  type Ptr = int

  /** The number of elements between the indices. */
  function Length(head: nat, tail: nat): nat
    requires head < SIZE && tail < SIZE
  {
    if head <= tail then tail - head else SIZE - head + tail
  }

  function Slot(head: nat, i: nat): nat
    requires head < SIZE && i < SIZE
  {
    if head + i < SIZE then head + i else head + i - SIZE
  }

  // ----- the index arithmetic

  function NextTail(tail: nat): nat {
    if tail + 1 == SIZE then 0 else tail + 1
  }

  /** The head that xy_spsc_ring_del stores, in the 64-bit arithmetic of size_t. */
  function NewHead(head: nat, tail: nat, n: nat): nat
    requires head < SIZE && tail < SIZE && n < WORD
  {
    var moved := (head + n) % WORD;
    if head <= tail then Min(tail, moved)
    else if moved < SIZE then moved
    else if moved - SIZE > tail then tail
    else moved - SIZE
  }

  /** What xy_spsc_ring_del returns as the code is written. */
  function CountAsWritten(head: nat, tail: nat, n: nat): int
    requires head < SIZE && tail < SIZE && n < WORD
  {
    var moved := (head + n) % WORD;
    if head > tail && moved >= SIZE && moved - SIZE > tail then n - (moved - SIZE - tail) else n
  }

  /** The new head is right, with min(n, length) elements gone, exactly when head + n does not
      overflow, but for one value of n that happens to hit the tail. */
  lemma NewHeadIff(head: nat, tail: nat, n: nat)
    requires head < SIZE && tail < SIZE && n < WORD
    ensures NewHead(head, tail, n) == Slot(head, Min(n, Length(head, tail)))
      <==> head + n < WORD || (tail < head && head + n == WORD + tail)
  {
    if head + n < WORD {
      assert (head + n) % WORD == head + n;
    } else {
      assert (head + n) % WORD == head + n - WORD;
    }
  }

  /** Without overflow the written return value counts the removed elements unless the
      elements lie in one piece and fewer than `n` are there. */
  lemma CountAsWrittenIff(head: nat, tail: nat, n: nat)
    requires head < SIZE && tail < SIZE && head + n < WORD
    ensures CountAsWritten(head, tail, n) == Min(n, Length(head, tail)) <==> tail < head || n <= tail - head
  {
    assert (head + n) % WORD == head + n;
  }

  // ----- the two threads

  /** The producer; `seen` is the queue's length at the moment head was read. */
  datatype Producer =
    | Making
    | AddReadHead(x: Ptr)
    | AddReadTail(x: Ptr, h: nat, seen: nat)
    | AddStore(x: Ptr, t: nat, seen: nat)
    | AddPublish(x: Ptr, t: nat, seen: nat)
    | AddDone(x: Ptr, ok: bool, seen: nat)

  /** The consumer; `seen` is the queue's length at the moment tail was read. */
  datatype Consumer =
    | Using
    | PeekReadHead
    | PeekReadTail(h: nat)
    | PeekReadSlot(h: nat)
    | PeekDone(found: Option<Ptr>)
    | DelReadHead(n: nat)
    | DelReadTail(n: nat, h: nat)
    | DelStore(n: nat, h': nat, seen: nat)
    | DelDone(n: nat, count: nat, seen: nat)

  /** `queue` is the atomic queue that the ring stands for; `added` and `removed` its history. */
  datatype State = State(
    head: nat, tail: nat, buffer: seq<Ptr>, producer: Producer, consumer: Consumer,
    queue: seq<Ptr>, added: seq<Ptr>, removed: seq<Ptr>)

  ghost predicate Init(s: State) {
    && s.head == s.tail == 0 && |s.buffer| == SIZE && s.producer == Making && s.consumer == Using
    && s.queue == s.added == s.removed == []
  }

  function ProducerStep(s: State): State
    requires s.producer.AddStore? ==> s.producer.t < |s.buffer|
  {
    match s.producer
    case Making => s
    case AddReadHead(x) => s.(producer := AddReadTail(x, s.head, |s.queue|))
    case AddReadTail(x, h, seen) =>
      s.(producer := if NextTail(s.tail) == h then AddDone(x, false, seen) else AddStore(x, s.tail, seen))
    case AddStore(x, t, seen) => s.(producer := AddPublish(x, t, seen), buffer := s.buffer[t := x])
    case AddPublish(x, t, seen) =>
      s.(producer := AddDone(x, true, seen), tail := NextTail(t), queue := s.queue + [x], added := s.added + [x])
    case AddDone(_, _, _) => s.(producer := Making)
  }

  function ConsumerStep(s: State): State
    requires s.head < SIZE && s.tail < SIZE && |s.buffer| == SIZE
    requires s.consumer.PeekReadSlot? || s.consumer.DelReadTail? ==> s.consumer.h < SIZE
    requires s.consumer.DelReadTail? ==> s.consumer.n < WORD
    requires s.consumer.DelStore? ==> Min(s.consumer.n, s.consumer.seen) <= |s.queue|
  {
    match s.consumer
    case Using => s
    case PeekReadHead => s.(consumer := PeekReadTail(s.head))
    case PeekReadTail(h) => s.(consumer := if h == s.tail then PeekDone(None) else PeekReadSlot(h))
    case PeekReadSlot(h) => s.(consumer := PeekDone(Some(s.buffer[h])))
    case PeekDone(_) => s.(consumer := Using)
    case DelReadHead(n) => s.(consumer := DelReadTail(n, s.head))
    case DelReadTail(n, h) => s.(consumer := DelStore(n, NewHead(h, s.tail, n), Length(h, s.tail)))
    case DelStore(n, h', seen) =>
      var k := Min(n, seen);
      s.(consumer := DelDone(n, k, seen), head := h', queue := s.queue[k..], removed := s.removed + s.queue[..k])
    case DelDone(_, _, _) => s.(consumer := Using)
  }

  /** A thread moves, or starts a call; a caller of xy_spsc_ring_del must not make head + n overflow. */
  datatype Action = Produce | Consume | Add(x: Ptr) | Peek | Del(n: nat)

  predicate Ready(s: State) {
    && s.head < SIZE && s.tail < SIZE && |s.buffer| == SIZE
    && (s.producer.AddStore? ==> s.producer.t < SIZE)
    && (s.consumer.PeekReadSlot? || s.consumer.DelReadTail? ==> s.consumer.h < SIZE)
    && (s.consumer.DelReadTail? ==> s.consumer.n < WORD)
    && (s.consumer.DelStore? ==> Min(s.consumer.n, s.consumer.seen) <= |s.queue|)
  }

  predicate Next(s: State, a: Action, s': State) {
    match a
    case Produce => Ready(s) && s' == ProducerStep(s)
    case Consume => Ready(s) && s' == ConsumerStep(s)
    case Add(x) => s.producer == Making && s' == s.(producer := AddReadHead(x))
    case Peek => s.consumer == Using && s' == s.(consumer := PeekReadHead)
    case Del(n) => s.consumer == Using && s.head + n < WORD && s' == s.(consumer := DelReadHead(n))
  }

  // ----- the invariant

  ghost predicate Filled(head: nat, buffer: seq<Ptr>, queue: seq<Ptr>)
    requires head < SIZE && |buffer| == SIZE
  {
    && |queue| < SIZE
    && forall i :: 0 <= i < |queue| ==> buffer[Slot(head, i)] == queue[i]
  }

  /** The producer's head may be stale, but only towards a queue that was longer then. */
  ghost predicate ProducerInv(s: State)
    requires Ready(s)
  {
    match s.producer
    case AddReadTail(_, h, seen) => h < SIZE && seen == Length(h, s.tail) && |s.queue| <= seen
    case AddStore(_, t, seen) => t == s.tail && |s.queue| <= seen < SIZE - 1
    case AddPublish(x, t, seen) => t == s.tail && |s.queue| <= seen < SIZE - 1 && s.buffer[t] == x
    case AddDone(x, ok, seen) => !ok <==> seen == SIZE - 1
    case _ => true
  }

  /** The consumer's tail may be stale, but only towards a queue that was shorter then. */
  ghost predicate ConsumerInv(s: State)
    requires Ready(s)
  {
    match s.consumer
    case PeekReadTail(h) => h == s.head
    case PeekReadSlot(h) => h == s.head && s.queue != []
    case PeekDone(found) => found.Some? ==> s.queue != [] && found.value == s.queue[0]
    case DelReadHead(n) => s.head + n < WORD
    case DelReadTail(n, h) => h == s.head && h + n < WORD
    case DelStore(n, h', seen) => seen <= |s.queue| < SIZE && h' == Slot(s.head, Min(n, seen))
    case DelDone(n, count, seen) => count == Min(n, seen)
    case _ => true
  }

  ghost predicate Inv(s: State) {
    && Ready(s) && |s.queue| == Length(s.head, s.tail) && Filled(s.head, s.buffer, s.queue)
    && ProducerInv(s) && ConsumerInv(s)
    && s.added == s.removed + s.queue
  }

  /** The slot being written lies outside the elements, even for the latest head. */
  lemma StoreIsOutside(head: nat, tail: nat, buffer: seq<Ptr>, queue: seq<Ptr>, x: Ptr)
    requires head < SIZE && tail < SIZE && |buffer| == SIZE && Filled(head, buffer, queue)
    requires |queue| == Length(head, tail)
    ensures Filled(head, buffer[tail := x], queue)
  {
  }

  lemma PublishFills(head: nat, tail: nat, buffer: seq<Ptr>, queue: seq<Ptr>, x: Ptr)
    requires head < SIZE && tail < SIZE && |buffer| == SIZE && Filled(head, buffer, queue)
    requires |queue| == Length(head, tail) < SIZE - 1 && buffer[tail] == x
    ensures Filled(head, buffer, queue + [x]) && Length(head, NextTail(tail)) == |queue| + 1
  {
  }

  lemma DropFills(head: nat, buffer: seq<Ptr>, queue: seq<Ptr>, k: nat)
    requires head < SIZE && |buffer| == SIZE && Filled(head, buffer, queue) && k <= |queue|
    ensures Filled(Slot(head, k), buffer, queue[k..])
  {
    forall i | 0 <= i < |queue| - k ensures Slot(Slot(head, k), i) == Slot(head, k + i) {
    }
  }

  lemma DropLength(head: nat, tail: nat, k: nat)
    requires head < SIZE && tail < SIZE && k <= Length(head, tail)
    ensures Slot(head, k) < SIZE && Length(Slot(head, k), tail) == Length(head, tail) - k
  {
  }

  lemma DelStoreKeeps(s: State, s': State)
    requires Inv(s) && s.consumer.DelStore? && s' == ConsumerStep(s)
    ensures Inv(s')
  {
    var k, q := Min(s.consumer.n, s.consumer.seen), s.queue;
    DropFills(s.head, s.buffer, q, k);
    DropLength(s.head, s.tail, k);
    hide Filled, Length, Slot, NewHead;
    assert s.removed + q == (s.removed + q[..k]) + q[k..];
  }

  lemma ProducerKeeps(s: State, s': State)
    requires Inv(s) && s' == ProducerStep(s)
    ensures Inv(s')
  {
    match s.producer
    case AddStore(x, t, _) => StoreIsOutside(s.head, t, s.buffer, s.queue, x);
    case AddPublish(x, t, _) => PublishFills(s.head, t, s.buffer, s.queue, x);
    case _ =>
  }

  lemma ConsumerKeeps(s: State, s': State)
    requires Inv(s) && s' == ConsumerStep(s)
    ensures Inv(s')
  {
    hide NewHead;
    match s.consumer
    case DelReadTail(n, h) => NewHeadIff(h, s.tail, n);
    case DelStore(_, _, _) => DelStoreKeeps(s, s');
    case _ =>
  }

  lemma NextKeepsInv(s: State, a: Action, s': State)
    requires Inv(s) && Next(s, a, s')
    ensures Inv(s')
  {
    match a
    case Produce => ProducerKeeps(s, s');
    case Consume => ConsumerKeeps(s, s');
    case _ =>
  }

  // ----- runs

  ghost predicate Step(s: State, s': State) {
    exists a :: Next(s, a, s')
  }

  ghost predicate IsRun(run: seq<State>) {
    run != [] && Init(run[0]) && forall i :: 0 <= i < |run| - 1 ==> Step(run[i], run[i + 1])
  }

  lemma {:induction false} RunsKeepInv(run: seq<State>, i: nat)
    requires IsRun(run) && i < |run|
    ensures Inv(run[i])
  {
    if i > 0 {
      RunsKeepInv(run, i - 1);
      assert Step(run[i - 1], run[i - 1 + 1]);
      var a :| Next(run[i - 1], a, run[i]);
      NextKeepsInv(run[i - 1], a, run[i]);
    }
  }

  /** A step of the bounded queue: nothing, one element more at the end, or fewer at the front. */
  ghost predicate QueueStep(s: State, s': State) {
    || (s'.queue == s.queue && s'.added == s.added && s'.removed == s.removed)
    || (exists x :: s'.queue == s.queue + [x] && s'.added == s.added + [x] && s'.removed == s.removed)
    || (exists k :: 0 <= k <= |s.queue| && s'.queue == s.queue[k..] && s'.removed == s.removed + s.queue[..k]
         && s'.added == s.added)
  }

  /** In every interleaving the ring is a FIFO queue of at most 65535 elements. */
  lemma RunsAreFifo(run: seq<State>, i: nat)
    requires IsRun(run) && i < |run|
    ensures run[i].added == run[i].removed + run[i].queue && |run[i].queue| <= SIZE - 1
    ensures i + 1 < |run| ==> QueueStep(run[i], run[i + 1])
  {
    RunsKeepInv(run, i);
    if i + 1 < |run| {
      assert Step(run[i], run[i + 1]);
    }
  }

  /** The results, in every reachable state: an add fails exactly when the queue was full when
      head was read; a peek yields the oldest element; a del removes min(n, length), the length
      being the one when tail was read. */
  lemma Results(run: seq<State>, i: nat)
    requires IsRun(run) && i < |run|
    ensures run[i].producer.AddDone? ==> (!run[i].producer.ok <==> run[i].producer.seen == SIZE - 1)
    ensures run[i].consumer.PeekDone? && run[i].consumer.found.Some? ==>
      run[i].queue != [] && run[i].consumer.found.value == run[i].queue[0]
    ensures run[i].consumer.DelDone? ==> run[i].consumer.count == Min(run[i].consumer.n, run[i].consumer.seen)
  {
    RunsKeepInv(run, i);
  }

  /** In every reachable state with an empty ring, the initial one among them, xy_spsc_ring_del as
      written returns n although it removes nothing. */
  lemma EmptyRingCount(run: seq<State>, i: nat, n: nat)
    requires IsRun(run) && i < |run| && run[i].queue == [] && run[i].head + n < WORD
    ensures run[i].head < SIZE && run[i].tail < SIZE
    ensures CountAsWritten(run[i].head, run[i].tail, n) == n && Min(n, Length(run[i].head, run[i].tail)) == 0
    ensures run[0].queue == []
  {
    RunsKeepInv(run, i);
    assert (run[i].head + n) % WORD == run[i].head + n;
  }

  /** A successful add has put its element at the end of the queue; a del's store takes its
      count from the front; a peek gives up only on an empty queue. */
  lemma Effects(s: State, a: Action, s': State)
    requires Inv(s) && Next(s, a, s')
    ensures s.producer.AddPublish? && s'.producer.AddDone? ==> s'.queue == s.queue + [s.producer.x]
    ensures s.producer.AddReadHead? && s'.producer.AddReadTail? ==> s'.producer.seen == |s.queue|
    ensures s.consumer.PeekReadTail? && s'.consumer.PeekDone? ==> s.queue == []
    ensures s.consumer.DelReadTail? && s'.consumer.DelStore? ==> s'.consumer.seen == |s.queue|
    ensures s.consumer.DelStore? && s'.consumer.DelDone? ==>
      s'.queue == s.queue[s'.consumer.count..] && s'.removed == s.removed + s.queue[..s'.consumer.count]
  {
  }

  // ----- what one call does, from its first step to its return

  predicate InAdd(p: Producer, x: Ptr) {
    !p.Making? && p.x == x
  }

  /** Only the step from AddPublish to AddDone adds, and only the call's own steps move it on. */
  lemma AddStep(s: State, s': State, x: Ptr)
    requires Inv(s) && Step(s, s') && InAdd(s.producer, x) && !s.producer.AddDone?
    ensures InAdd(s'.producer, x)
    ensures s'.added == s.added + if s'.producer.AddDone? && s'.producer.ok then [x] else []
    ensures s'.producer.AddReadTail? && s'.producer != s.producer ==> s'.producer.seen == |s.queue|
    ensures s'.producer.AddDone? && !s'.producer.ok ==> s.producer.AddReadTail? && s.producer.seen == SIZE - 1
    ensures s'.producer.AddReadHead? ==> s.producer.AddReadHead?
  {
    hide Filled, NewHead, Slot;
    var a :| Next(s, a, s');
  }

  /** `k` is the only step from run[i] to run[j] at which elements are added, and `x` is added then. */
  ghost predicate AddsOnce(run: seq<State>, x: Ptr, i: nat, j: nat, k: nat) {
    && i <= k < j < |run|
    && forall m :: i <= m < j ==> run[m + 1].added == run[m].added + if m == k then [x] else []
  }

  ghost predicate AddsNone(run: seq<State>, i: nat, j: nat) {
    i <= j < |run| && forall m :: i <= m < j ==> run[m + 1].added == run[m].added
  }

  ghost predicate AddedBy(run: seq<State>, x: Ptr, i: nat, j: nat, k: nat)
    requires i <= j < |run|
  {
    var p := run[j].producer;
    && (if p.AddDone? && p.ok then AddsOnce(run, x, i, j, k) else AddsNone(run, i, j))
    && (p.AddReadTail? || (p.AddDone? && !p.ok) ==>
          i <= k < j && |run[k].queue| == if p.AddDone? then SIZE - 1 else p.seen)
  }

  lemma {:induction false} AddSoFar(run: seq<State>, x: Ptr, i: nat, j: nat) returns (k: nat)
    requires IsRun(run) && i <= j < |run| && run[i].producer == AddReadHead(x)
    requires forall m :: i <= m < j ==> !run[m].producer.Making? && !run[m].producer.AddDone?
    ensures InAdd(run[j].producer, x) && AddedBy(run, x, i, j, k)
    decreases j
  {
    hide Inv, Step;
    k := i;
    if j > i {
      k := AddSoFar(run, x, i, j - 1);
      RunsKeepInv(run, j - 1);
      assert Step(run[j - 1], run[j - 1 + 1]);
      AddStep(run[j - 1], run[j], x);
      var p, p' := run[j - 1].producer, run[j].producer;
      if p' != p && (p'.AddReadTail? || (p'.AddDone? && p'.ok)) {
        k := j - 1;
      }
    }
  }

  /** xy_spsc_ring_add, in every run: a call that returns 0 adds its element at exactly one of its
      steps; one that fails adds nothing, and the ring was full at one of its steps. */
  lemma AddResult(run: seq<State>, x: Ptr, i: nat, j: nat) returns (k: nat)
    requires IsRun(run) && i < j < |run| && run[i].producer == AddReadHead(x)
    requires run[j].producer.AddDone?
    requires forall m :: i <= m < j ==> !run[m].producer.Making? && !run[m].producer.AddDone?
    ensures if run[j].producer.ok then AddsOnce(run, x, i, j, k)
      else AddsNone(run, i, j) && i <= k < j && |run[k].queue| == SIZE - 1
  {
    k := AddSoFar(run, x, i, j);
  }

  predicate InDel(c: Consumer, n: nat) {
    (c.DelReadHead? || c.DelReadTail? || c.DelStore? || c.DelDone?) && c.n == n
  }

  /** Only the step from DelStore to DelDone removes, and it removes what it reports. */
  lemma DelStep(s: State, s': State, n: nat)
    requires Inv(s) && Step(s, s') && InDel(s.consumer, n) && !s.consumer.DelDone?
    ensures InDel(s'.consumer, n)
    ensures s'.consumer.DelReadHead? ==> s.consumer.DelReadHead?
    ensures s'.consumer.DelStore? && s.consumer != s'.consumer ==> s'.consumer.seen == |s.queue|
    ensures s'.consumer.DelDone? ==>
      && s.consumer.DelStore? && s'.consumer.seen == s.consumer.seen
      && s'.consumer.count == Min(n, s.consumer.seen) <= |s.queue|
      && s'.removed == s.removed + s.queue[..s'.consumer.count] && s'.queue == s.queue[s'.consumer.count..]
    ensures !s'.consumer.DelDone? ==> s'.removed == s.removed
  {
    hide Filled, NewHead, Slot;
    var a :| Next(s, a, s');
  }

  /** `k` is the only step from run[i] to run[j] at which elements are removed: the first `count`. */
  ghost predicate RemovesOnce(run: seq<State>, count: nat, i: nat, j: nat, k: nat) {
    && i <= k < j < |run| && count <= |run[k].queue| && run[k + 1].queue == run[k].queue[count..]
    && forall m :: i <= m < j ==>
      run[m + 1].removed == run[m].removed + if m == k then run[k].queue[..count] else []
  }

  ghost predicate RemovesNone(run: seq<State>, i: nat, j: nat) {
    i <= j < |run| && forall m :: i <= m < j ==> run[m + 1].removed == run[m].removed
  }

  ghost predicate RemovedBy(run: seq<State>, i: nat, j: nat, k: nat, seenAt: nat)
    requires i <= j < |run|
  {
    var c := run[j].consumer;
    && (if c.DelDone? then RemovesOnce(run, c.count, i, j, k) else RemovesNone(run, i, j))
    && (c.DelStore? || c.DelDone? ==> i <= seenAt < j && |run[seenAt].queue| == c.seen)
    && (c.DelDone? ==> c.count == Min(c.n, c.seen))
  }

  lemma {:induction false} DelSoFar(run: seq<State>, n: nat, i: nat, j: nat) returns (k: nat, seenAt: nat)
    requires IsRun(run) && i <= j < |run| && run[i].consumer == DelReadHead(n)
    requires forall m :: i <= m < j ==> InDel(run[m].consumer, n) && !run[m].consumer.DelDone?
    ensures InDel(run[j].consumer, n) && RemovedBy(run, i, j, k, seenAt)
    decreases j
  {
    hide Inv, Step;
    k, seenAt := i, i;
    if j > i {
      k, seenAt := DelSoFar(run, n, i, j - 1);
      RunsKeepInv(run, j - 1);
      assert Step(run[j - 1], run[j - 1 + 1]);
      DelStep(run[j - 1], run[j], n);
      var c, c' := run[j - 1].consumer, run[j].consumer;
      if c'.DelDone? {
        k := j - 1;
      } else if c'.DelStore? && c' != c {
        seenAt := j - 1;
      }
    }
  }

  /** xy_spsc_ring_del, in every run: a call removes, at exactly one of its steps, the first
      min(n, length) elements, the length being that at one of its steps, and reports their number. */
  lemma DelResult(run: seq<State>, n: nat, i: nat, j: nat) returns (k: nat, seenAt: nat)
    requires IsRun(run) && i < j < |run| && run[i].consumer == DelReadHead(n) && run[j].consumer.DelDone?
    requires forall m :: i <= m < j ==> InDel(run[m].consumer, n) && !run[m].consumer.DelDone?
    ensures RemovesOnce(run, run[j].consumer.count, i, j, k)
    ensures i <= seenAt < j && run[j].consumer.count == Min(n, |run[seenAt].queue|)
  {
    k, seenAt := DelSoFar(run, n, i, j);
  }

  predicate InPeek(c: Consumer) {
    c.PeekReadHead? || c.PeekReadTail? || c.PeekReadSlot? || c.PeekDone?
  }

  lemma PeekStep(s: State, s': State)
    requires Inv(s) && Step(s, s') && InPeek(s.consumer) && !s.consumer.PeekDone?
    ensures InPeek(s'.consumer) && s'.removed == s.removed
    ensures s'.consumer == PeekDone(None) ==> s.queue == []
  {
    hide Filled, NewHead, Slot;
    var a :| Next(s, a, s');
  }

  lemma {:induction false} PeekSoFar(run: seq<State>, i: nat, j: nat) returns (k: nat)
    requires IsRun(run) && i <= j < |run| && run[i].consumer == PeekReadHead
    requires forall m :: i <= m < j ==> InPeek(run[m].consumer) && !run[m].consumer.PeekDone?
    ensures InPeek(run[j].consumer) && RemovesNone(run, i, j)
    ensures run[j].consumer == PeekDone(None) ==> i <= k < j && run[k].queue == []
    decreases j
  {
    hide Inv, Step;
    k := i;
    if j > i {
      k := PeekSoFar(run, i, j - 1);
      RunsKeepInv(run, j - 1);
      assert Step(run[j - 1], run[j - 1 + 1]);
      PeekStep(run[j - 1], run[j]);
      k := j - 1;
    }
  }

  /** xy_spsc_ring_peek, in every run: a call removes nothing; it yields the oldest element, which is
      still the oldest when it returns, or NULL, and then the ring was empty at one of its steps. */
  lemma PeekResult(run: seq<State>, i: nat, j: nat) returns (k: nat)
    requires IsRun(run) && i < j < |run| && run[i].consumer == PeekReadHead && run[j].consumer.PeekDone?
    requires forall m :: i <= m < j ==> InPeek(run[m].consumer) && !run[m].consumer.PeekDone?
    ensures RemovesNone(run, i, j)
    ensures var found := run[j].consumer.found;
      if found.Some? then run[j].queue != [] && found.value == run[j].queue[0] else i <= k < j && run[k].queue == []
  {
    k := PeekSoFar(run, i, j);
    RunsKeepInv(run, j);
  }

  /** The steps that a call has left before it returns. */
  function AddLeft(p: Producer): nat {
    match p
    case AddReadHead(_) => 4
    case AddReadTail(_, _, _) => 3
    case AddStore(_, _, _) => 2
    case AddPublish(_, _, _) => 1
    case _ => 0
  }

  function ConsumeLeft(c: Consumer): nat {
    match c
    case PeekReadHead | DelReadHead(_) => 3
    case PeekReadTail(_) | DelReadTail(_, _) => 2
    case PeekReadSlot(_) | DelStore(_, _, _) => 1
    case _ => 0
  }

  /** No call waits for the other thread: each of its own steps brings it nearer its return. */
  lemma WaitFree(s: State, a: Action, s': State)
    requires Next(s, a, s')
    ensures a == Produce && AddLeft(s.producer) > 0 ==> AddLeft(s'.producer) < AddLeft(s.producer)
    ensures a == Consume && ConsumeLeft(s.consumer) > 0 ==> ConsumeLeft(s'.consumer) < ConsumeLeft(s.consumer)
    ensures a != Produce && !a.Add? ==> s'.producer == s.producer
    ensures a != Consume && !a.Peek? && !a.Del? ==> s'.consumer == s.consumer
  {
  }
}
