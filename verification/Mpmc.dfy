/** The locked list of queue/include/xy_mpmc.h: any number of threads in
    mpmc_list_add_tail, one in mpmc_list_del_head, every load, store, lock and unlock one
    atomic step.

    mpmc_list_add_tail reads tail->prev before it holds any lock (xy_mpmc.h:37).  The model
    reads it again once both locks are held, and starts over when it has changed; the locks
    are taken in the order of the code, prev before tail.  The end of the module is about the
    code as it is written: AsWrittenIff says which of its runs are correct, and
    StaleReadLosesNode is one that is not. */
module Mpmc {
  import opened Common

  datatype Node = Head | Tail | Elem(id: nat)

  datatype Owner = Enq(t: nat) | Deq

  /** Where a thread stands in mpmc_list_add_tail(tail, node), with its local `prev`. */
  datatype EnqPc =
    | Idle
    | ReadPrev(node: Node)
    | LockPrev(node: Node, p: Node)
    | LockTail(node: Node, p: Node)
    | Check(node: Node, p: Node)
    | LinkPrev(node: Node, p: Node)
    | LinkNode(node: Node, p: Node)
    | LinkTail(node: Node, p: Node)
    | LinkBack(node: Node, p: Node)
    | UnlockTail(node: Node, p: Node, again: bool)
    | UnlockPrev(node: Node, p: Node, again: bool)

  /** Where the dequeuing thread stands in mpmc_list_del_head, with its locals `first` and `second`. */
  datatype DeqPc =
    | Resting
    | LockHead
    | ReadFirst
    | LockFirst(f: Node)
    | ReadSecond(f: Node)
    | LockSecond(f: Node, s: Node)
    | SetNext(f: Node, s: Node)
    | SetPrev(f: Node, s: Node)
    | UnlockSecond(f: Node, s: Node)
    | UnlockFirst(f: Node)
    | UnlockHead(first: Option<Node>)

  /** `queue` is the atomic queue the list stands for; `added` and `taken` are its history. */
  datatype State = State(
    next: map<Node, Node>, prev: map<Node, Node>, locks: map<Node, Owner>,
    enq: map<nat, EnqPc>, deq: DeqPc,
    abs: Abstract)

  datatype Abstract = Abstract(queue: seq<Node>, added: seq<Node>, taken: seq<Node>)

  function Init(): State {
    State(map[Head := Tail], map[Tail := Head], map[], map[], Resting, Abstract([], [], []))
  }

  // ----- steps

  /** The thread has yet to link its node in. */
  predicate BeforeCommit(pc: EnqPc) {
    pc.ReadPrev? || pc.LockPrev? || pc.LockTail? || pc.Check? || pc.LinkPrev? ||
    (pc.UnlockTail? && pc.again) || (pc.UnlockPrev? && pc.again)
  }

  /** A call mpmc_list_add_tail begins with a node that is nowhere in use. */
  predicate Unused(s: State, node: Node) {
    && node.Elem? && node !in s.abs.queue
    && (forall t :: t in s.enq && BeforeCommit(s.enq[t]) ==> s.enq[t].node != node)
    && !Taking(s.deq, node)
  }

  predicate Taking(d: DeqPc, node: Node) {
    (d.LockFirst? || d.ReadSecond? || d.LockSecond? || d.SetNext? || d.SetPrev? || d.UnlockSecond? || d.UnlockFirst?)
      && d.f == node
  }

  function At(s: State, t: nat, pc: EnqPc): State {
    s.(enq := s.enq[t := pc])
  }

  /** One step of thread `t` in mpmc_list_add_tail, unless it waits for a lock. */
  function EnqStep(s: State, t: nat): Option<State>
    requires t in s.enq && Tail in s.prev
  {
    match s.enq[t]
    case Idle => None
    case ReadPrev(n) => Some(At(s, t, LockPrev(n, s.prev[Tail])))
    case LockPrev(n, p) =>
      if p in s.locks then None else Some(At(s, t, LockTail(n, p)).(locks := s.locks[p := Enq(t)]))
    case LockTail(n, p) =>
      if Tail in s.locks then None else Some(At(s, t, Check(n, p)).(locks := s.locks[Tail := Enq(t)]))
    case Check(n, p) =>
      Some(At(s, t, if s.prev[Tail] == p then LinkPrev(n, p) else UnlockTail(n, p, true)))
    case LinkPrev(n, p) =>
      var g := s.abs;
      Some(At(s, t, LinkNode(n, p)).(next := s.next[p := n], abs := Abstract(g.queue + [n], g.added + [n], g.taken)))
    case LinkNode(n, p) => Some(At(s, t, LinkTail(n, p)).(next := s.next[n := Tail]))
    case LinkTail(n, p) => Some(At(s, t, LinkBack(n, p)).(prev := s.prev[Tail := n]))
    case LinkBack(n, p) => Some(At(s, t, UnlockTail(n, p, false)).(prev := s.prev[n := p]))
    case UnlockTail(n, p, again) => Some(At(s, t, UnlockPrev(n, p, again)).(locks := s.locks - {Tail}))
    case UnlockPrev(n, p, again) => Some(At(s, t, if again then ReadPrev(n) else Idle).(locks := s.locks - {p}))
  }

  /** One step of the thread in mpmc_list_del_head, unless it waits for a lock. */
  function DeqStep(s: State): Option<State>
    requires Head in s.next && (s.deq.ReadSecond? ==> s.deq.f in s.next)
    requires s.deq.SetNext? ==> s.abs.queue != []
  {
    match s.deq
    case Resting => None
    case LockHead => if Head in s.locks then None else Some(s.(deq := ReadFirst, locks := s.locks[Head := Deq]))
    case ReadFirst => Some(s.(deq := if s.next[Head] == Tail then UnlockHead(None) else LockFirst(s.next[Head])))
    case LockFirst(f) => if f in s.locks then None else Some(s.(deq := ReadSecond(f), locks := s.locks[f := Deq]))
    case ReadSecond(f) => Some(s.(deq := LockSecond(f, s.next[f])))
    case LockSecond(f, c) => if c in s.locks then None else Some(s.(deq := SetNext(f, c), locks := s.locks[c := Deq]))
    case SetNext(f, c) =>
      var g := s.abs;
      Some(s.(deq := SetPrev(f, c), next := s.next[Head := c], abs := Abstract(g.queue[1..], g.added, g.taken + [f])))
    case SetPrev(f, c) => Some(s.(deq := UnlockSecond(f, c), prev := s.prev[c := Head]))
    case UnlockSecond(f, c) => Some(s.(deq := UnlockFirst(f), locks := s.locks - {c}))
    case UnlockFirst(f) => Some(s.(deq := UnlockHead(Some(f)), locks := s.locks - {f}))
    case UnlockHead(_) => Some(s.(deq := Resting, locks := s.locks - {Head}))
  }

  /** What the code may dereference: both ends are linked, and so is the node being removed. */
  predicate Ready(s: State) {
    && Tail in s.prev && Head in s.next
    && (s.deq.ReadSecond? ==> s.deq.f in s.next)
    && (s.deq.SetNext? ==> s.abs.queue != [])
  }

  /** Who moves: a thread begins a call, or takes its next step in one. */
  datatype Action = Add(t: nat, node: Node) | EnqMove(t: nat) | Del | DeqMove

  predicate Next(s: State, a: Action, s': State) {
    match a
    case Add(t, n) => (t in s.enq ==> s.enq[t].Idle?) && Unused(s, n) && s' == At(s, t, ReadPrev(n))
    case EnqMove(t) => Ready(s) && t in s.enq && EnqStep(s, t) == Some(s')
    case Del => s.deq.Resting? && s' == s.(deq := LockHead)
    case DeqMove => Ready(s) && DeqStep(s) == Some(s')
  }

  // ----- who holds which lock

  function EnqHolds(pc: EnqPc): set<Node> {
    match pc
    case LockTail(_, p) => {p}
    case Check(_, p) => {p, Tail}
    case LinkPrev(_, p) => {p, Tail}
    case LinkNode(_, p) => {p, Tail}
    case LinkTail(_, p) => {p, Tail}
    case LinkBack(_, p) => {p, Tail}
    case UnlockTail(_, p, _) => {p, Tail}
    case UnlockPrev(_, p, _) => {p}
    case _ => {}
  }

  function DeqHolds(pc: DeqPc): set<Node> {
    match pc
    case ReadFirst => {Head}
    case LockFirst(_) => {Head}
    case ReadSecond(f) => {Head, f}
    case LockSecond(f, _) => {Head, f}
    case SetNext(f, c) => {Head, f, c}
    case SetPrev(f, c) => {Head, f, c}
    case UnlockSecond(f, c) => {Head, f, c}
    case UnlockFirst(f) => {Head, f}
    case UnlockHead(_) => {Head}
    case _ => {}
  }

  function HoldsOf(s: State, o: Owner): set<Node> {
    match o
    case Enq(t) => if t in s.enq then EnqHolds(s.enq[t]) else {}
    case Deq => DeqHolds(s.deq)
  }

  /** A lock is held by a thread exactly when the thread stands between taking and giving it back. */
  ghost predicate LockInv(s: State) {
    forall n, o :: n in HoldsOf(s, o) <==> n in s.locks && s.locks[n] == o
  }

  // ----- the shape of the list

  function Chain(q: seq<Node>): (c: seq<Node>)
    ensures |c| == |q| + 2 && c[0] == Head && c[|q| + 1] == Tail
    ensures forall i :: 0 <= i < |q| ==> c[i + 1] == q[i]
  {
    [Head] + q + [Tail]
  }

  ghost predicate AllNew(q: seq<Node>) {
    && (forall i :: 0 <= i < |q| ==> q[i].Elem?)
    && (forall i, j :: 0 <= i < j < |q| ==> q[i] != q[j])
  }

  /** The thread that is allowed to write at the tail. */
  function Writer(s: State): EnqPc {
    if Tail in s.locks && s.locks[Tail].Enq? && s.locks[Tail].t in s.enq then s.enq[s.locks[Tail].t] else Idle
  }

  /** The next link out of position `i` of the chain; a new node has none until it is linked. */
  predicate NextOk(next: map<Node, Node>, q: seq<Node>, w: EnqPc, i: nat)
    requires i <= |q|
  {
    (w.LinkNode? && i == |q|) || (Chain(q)[i] in next && next[Chain(q)[i]] == Chain(q)[i + 1])
  }

  /** What prev leads to, from position i + 1 of the chain. */
  function PrevOf(q: seq<Node>, w: EnqPc, d: DeqPc, i: nat): Node
    requires i <= |q|
  {
    if i == |q| && (w.LinkNode? || w.LinkTail?) && |q| > 0 then Chain(q)[i - 1]
    else if i == 0 && d.SetPrev? then d.f
    else Chain(q)[i]
  }

  /** The prev link into position `i` of the chain; a new node has none until the last store. */
  predicate PrevOk(prev: map<Node, Node>, q: seq<Node>, w: EnqPc, d: DeqPc, i: nat)
    requires i <= |q|
  {
    || (i == |q| - 1 && (w.LinkNode? || w.LinkTail? || w.LinkBack?))
    || (Chain(q)[i + 1] in prev && prev[Chain(q)[i + 1]] == PrevOf(q, w, d, i))
  }

  ghost predicate WriterInv(q: seq<Node>, w: EnqPc) {
    && (w.LinkPrev? ==> w.p == Chain(q)[|q|])
    && (w.LinkNode? || w.LinkTail? || w.LinkBack? ==> q != [] && w.node == q[|q| - 1] && w.p == Chain(q)[|q| - 1])
  }

  ghost predicate ReaderInv(q: seq<Node>, d: DeqPc) {
    && (d.LockFirst? || d.ReadSecond? || d.LockSecond? || d.SetNext? ==> q != [] && d.f == q[0])
    && (d.LockSecond? || d.SetNext? ==> d.s == Chain(q)[2])
    && (d.SetPrev? ==> d.s == Chain(q)[1])
    && (d.SetPrev? || d.UnlockSecond? || d.UnlockFirst? ==> d.f.Elem? && d.f !in q)
    && (d.SetPrev? || d.UnlockSecond? ==> d.s != Head && d.s != d.f)
  }

  /** Nodes on their way in are not in the queue yet, and each belongs to one thread. */
  ghost predicate NodeInv(s: State) {
    && (forall t :: t in s.enq && BeforeCommit(s.enq[t]) ==>
          s.enq[t].node.Elem? && s.enq[t].node !in s.abs.queue && !Taking(s.deq, s.enq[t].node))
    && (forall t, u :: t in s.enq && u in s.enq && t != u && BeforeCommit(s.enq[t]) && BeforeCommit(s.enq[u]) ==>
         s.enq[t].node != s.enq[u].node)
    && (forall t :: t in s.enq && !s.enq[t].Idle? && !s.enq[t].ReadPrev? ==> s.enq[t].p != Tail)
  }

  ghost predicate Shape(next: map<Node, Node>, prev: map<Node, Node>, q: seq<Node>, w: EnqPc, d: DeqPc) {
    && AllNew(q) && WriterInv(q, w) && ReaderInv(q, d)
    && (forall i: nat :: i <= |q| ==> NextOk(next, q, w, i))
    && (forall i: nat :: i <= |q| ==> PrevOk(prev, q, w, d, i))
  }

  /** Past its commit step a call has done its work: the node is in, or is the one just taken. */
  ghost predicate DoneInv(s: State) {
    && (forall t :: t in s.enq && !s.enq[t].Idle? && !BeforeCommit(s.enq[t]) ==> s.enq[t].node in s.abs.added)
    && (s.deq.SetPrev? || s.deq.UnlockSecond? || s.deq.UnlockFirst? ==>
         s.abs.taken != [] && s.deq.f == s.abs.taken[|s.abs.taken| - 1])
  }

  ghost predicate Inv(s: State) {
    && LockInv(s) && NodeInv(s) && DoneInv(s)
    && Shape(s.next, s.prev, s.abs.queue, Writer(s), s.deq)
    && s.abs.added == s.abs.taken + s.abs.queue
  }

  // ----- locks

  /** No lock has two holders. */
  lemma Exclusive(s: State, n: Node, o: Owner, o': Owner)
    requires LockInv(s) && n in HoldsOf(s, o) && n in HoldsOf(s, o')
    ensures o == o'
  {
    assert s.locks[n] == o;
  }

  /** The thread that writes at the tail and the dequeuer never hold the same lock. */
  lemma WriterApart(s: State, n: Node)
    requires LockInv(s) && n in DeqHolds(s.deq)
    ensures n !in EnqHolds(Writer(s))
  {
    if n in EnqHolds(Writer(s)) {
      Exclusive(s, n, Deq, s.locks[Tail]);
    }
  }

  /** Only `o` gains or loses locks. */
  ghost predicate OnlyMoves(s: State, s': State, o: Owner) {
    forall u :: u != o ==> HoldsOf(s', u) == HoldsOf(s, u)
  }

  lemma LockTaken(s: State, s': State, o: Owner, n: Node)
    requires LockInv(s) && n !in s.locks && s'.locks == s.locks[n := o]
    requires forall m :: m in HoldsOf(s', o) <==> m in HoldsOf(s, o) || m == n
    requires OnlyMoves(s, s', o)
    ensures LockInv(s')
  {
    forall m, u ensures m in HoldsOf(s', u) <==> m in s'.locks && s'.locks[m] == u {
      assert m in HoldsOf(s, u) <==> m in s.locks && s.locks[m] == u;
    }
  }

  lemma LockFreed(s: State, s': State, o: Owner, n: Node)
    requires LockInv(s) && n in HoldsOf(s, o) && s'.locks == s.locks - {n}
    requires forall m :: m in HoldsOf(s', o) <==> m in HoldsOf(s, o) && m != n
    requires OnlyMoves(s, s', o)
    ensures LockInv(s')
  {
    forall m, u ensures m in HoldsOf(s', u) <==> m in s'.locks && s'.locks[m] == u {
      assert m in HoldsOf(s, u) <==> m in s.locks && s.locks[m] == u;
      if u != o && m == n && m in HoldsOf(s, u) {
        Exclusive(s, n, o, u);
      }
    }
  }

  lemma LocksKept(s: State, s': State, o: Owner)
    requires LockInv(s) && s'.locks == s.locks
    requires OnlyMoves(s, s', o) && HoldsOf(s', o) == HoldsOf(s, o)
    ensures LockInv(s')
  {
    forall m, u ensures m in HoldsOf(s', u) <==> m in s'.locks && s'.locks[m] == u {
      assert m in HoldsOf(s, u) <==> m in s.locks && s.locks[m] == u;
    }
  }

  lemma EnqOnlyMoves(s: State, t: nat, s': State)
    requires t in s.enq && Tail in s.prev && EnqStep(s, t) == Some(s')
    ensures OnlyMoves(s, s', Enq(t))
  {
    hide EnqHolds, DeqHolds;
  }

  lemma EnqLocks(s: State, t: nat, s': State)
    requires LockInv(s) && t in s.enq && Tail in s.prev && EnqStep(s, t) == Some(s')
    requires !s.enq[t].Idle? && !s.enq[t].ReadPrev? ==> s.enq[t].p != Tail
    ensures LockInv(s')
  {
    hide LockInv, OnlyMoves;
    var pc := s.enq[t];
    EnqOnlyMoves(s, t, s');
    if pc.LockPrev? {
      LockTaken(s, s', Enq(t), pc.p);
    } else if pc.LockTail? {
      LockTaken(s, s', Enq(t), Tail);
    } else if pc.UnlockTail? {
      LockFreed(s, s', Enq(t), Tail);
    } else if pc.UnlockPrev? {
      LockFreed(s, s', Enq(t), pc.p);
    } else {
      LocksKept(s, s', Enq(t));
    }
  }

  lemma DeqTakesLock(s: State, s': State)
    requires LockInv(s) && ReaderInv(s.abs.queue, s.deq) && AllNew(s.abs.queue) && Ready(s) && DeqStep(s) == Some(s')
    requires s.deq.LockHead? || s.deq.LockFirst? || s.deq.LockSecond?
    ensures LockInv(s')
  {
    assert OnlyMoves(s, s', Deq);
    hide LockInv, OnlyMoves;
    LockTaken(s, s', Deq, if s.deq.LockHead? then Head else if s.deq.LockFirst? then s.deq.f else s.deq.s);
  }

  lemma DeqFreesLock(s: State, s': State)
    requires LockInv(s) && ReaderInv(s.abs.queue, s.deq) && Ready(s) && DeqStep(s) == Some(s')
    requires s.deq.UnlockHead? || s.deq.UnlockFirst? || s.deq.UnlockSecond?
    ensures LockInv(s')
  {
    assert OnlyMoves(s, s', Deq);
    hide LockInv, OnlyMoves;
    LockFreed(s, s', Deq, if s.deq.UnlockHead? then Head else if s.deq.UnlockFirst? then s.deq.f else s.deq.s);
  }

  lemma DeqLocks(s: State, s': State)
    requires LockInv(s) && ReaderInv(s.abs.queue, s.deq) && AllNew(s.abs.queue) && Ready(s) && DeqStep(s) == Some(s')
    ensures LockInv(s')
  {
    var pc := s.deq;
    if pc.LockHead? || pc.LockFirst? || pc.LockSecond? {
      DeqTakesLock(s, s');
    } else if pc.UnlockHead? || pc.UnlockFirst? || pc.UnlockSecond? {
      DeqFreesLock(s, s');
    } else {
      hide LockInv;
      LocksKept(s, s', Deq);
    }
  }

  /** Who writes at the tail after a step of thread `t`. */
  lemma WriterAfter(s: State, t: nat, s': State)
    requires LockInv(s) && t in s.enq && Tail in s.prev && EnqStep(s, t) == Some(s')
    requires !s.enq[t].Idle? && !s.enq[t].ReadPrev? ==> s.enq[t].p != Tail
    ensures Tail in EnqHolds(s.enq[t]) ==> Writer(s) == s.enq[t]
    ensures s.enq[t].LockTail? ==> Writer(s) == Idle
    ensures Tail in EnqHolds(s'.enq[t]) ==> Writer(s') == s'.enq[t]
    ensures s.enq[t].UnlockTail? ==> Writer(s') == Idle
    ensures Tail !in EnqHolds(s.enq[t]) && Tail !in EnqHolds(s'.enq[t]) ==> Writer(s') == Writer(s)
  {
    EnqLocks(s, t, s');
    assert Tail in HoldsOf(s, Enq(t)) <==> Tail in s.locks && s.locks[Tail] == Enq(t);
    assert Tail in HoldsOf(s', Enq(t)) <==> Tail in s'.locks && s'.locks[Tail] == Enq(t);
  }

  // ----- the writer's steps on the list

  lemma ChainDistinct(q: seq<Node>, i: nat, j: nat)
    requires AllNew(q) && i < j <= |q| + 1
    ensures Chain(q)[i] != Chain(q)[j]
  {
  }

  /** The writer and the dequeuer are at different locks. */
  ghost predicate Apart(w: EnqPc, d: DeqPc) {
    forall n :: n in EnqHolds(w) ==> n !in DeqHolds(d)
  }

  lemma CommitNext(next: map<Node, Node>, q: seq<Node>, n: Node, p: Node, i: nat)
    requires AllNew(q) && p == Chain(q)[|q|] && i < |q| && NextOk(next, q, LinkPrev(n, p), i)
    ensures NextOk(next[p := n], q + [n], LinkNode(n, p), i)
  {
    ChainDistinct(q, i, |q|);
  }

  lemma CommitLast(next: map<Node, Node>, q: seq<Node>, n: Node, p: Node)
    requires p == Chain(q)[|q|] && p in next && next[p] == n
    ensures NextOk(next, q + [n], LinkNode(n, p), |q|) && NextOk(next, q + [n], LinkNode(n, p), |q| + 1)
  {
  }

  lemma ChainPlus(q: seq<Node>, n: Node)
    ensures var c, c' := Chain(q), Chain(q + [n]);
      (forall k: nat :: k <= |q| ==> c'[k] == c[k]) && c'[|q| + 1] == n && c'[|q| + 2] == Tail
  {
  }

  lemma CommitPrev(prev: map<Node, Node>, q: seq<Node>, n: Node, p: Node, d: DeqPc, i: nat)
    requires i <= |q| + 1 && PrevOk(prev, q, LinkPrev(n, p), d, if i < |q| then i else |q|)
    requires d.SetPrev? ==> q != []
    ensures PrevOk(prev, q + [n], LinkNode(n, p), d, i)
  {
    hide Chain;
    ChainPlus(q, n);
  }

  lemma CommitShape(next: map<Node, Node>, prev: map<Node, Node>, q: seq<Node>, n: Node, p: Node, d: DeqPc)
    requires Shape(next, prev, q, LinkPrev(n, p), d) && Apart(LinkPrev(n, p), d)
    requires n.Elem? && n !in q && !Taking(d, n)
    ensures Shape(next[p := n], prev, q + [n], LinkNode(n, p), d)
  {
    hide NextOk, PrevOk;
    var next', q', w' := next[p := n], q + [n], LinkNode(n, p);
    assert p in EnqHolds(LinkPrev(n, p)) && Tail in EnqHolds(LinkPrev(n, p));
    forall i: nat | i <= |q'| ensures NextOk(next', q', w', i) && PrevOk(prev, q', w', d, i) {
      if i < |q| {
        CommitNext(next, q, n, p, i);
      }
      CommitLast(next', q, n, p);
      CommitPrev(prev, q, n, p, d, i);
    }
  }

  lemma NodeLinkedShape(next: map<Node, Node>, prev: map<Node, Node>, q: seq<Node>, n: Node, p: Node, d: DeqPc)
    requires Shape(next, prev, q, LinkNode(n, p), d)
    ensures Shape(next[n := Tail], prev, q, LinkTail(n, p), d)
  {
    var next', w' := next[n := Tail], LinkTail(n, p);
    forall i: nat | i <= |q| ensures NextOk(next', q, w', i) {
      if i < |q| {
        assert NextOk(next, q, LinkNode(n, p), i);
        ChainDistinct(q, i, |q|);
      }
    }
    forall i: nat | i <= |q| ensures PrevOk(prev, q, w', d, i) {
      assert PrevOk(prev, q, LinkNode(n, p), d, i);
    }
  }

  lemma TailLinkedShape(next: map<Node, Node>, prev: map<Node, Node>, q: seq<Node>, n: Node, p: Node, d: DeqPc)
    requires Shape(next, prev, q, LinkTail(n, p), d)
    ensures Shape(next, prev[Tail := n], q, LinkBack(n, p), d)
  {
    var prev', w' := prev[Tail := n], LinkBack(n, p);
    forall i: nat | i <= |q| ensures NextOk(next, q, w', i) {
      assert NextOk(next, q, LinkTail(n, p), i);
    }
    forall i: nat | i <= |q| ensures PrevOk(prev', q, w', d, i) {
      if i < |q| {
        assert PrevOk(prev, q, LinkTail(n, p), d, i);
        ChainDistinct(q, i + 1, |q| + 1);
      }
    }
  }

  lemma BackLinkedShape(next: map<Node, Node>, prev: map<Node, Node>, q: seq<Node>, n: Node, p: Node, d: DeqPc)
    requires Shape(next, prev, q, LinkBack(n, p), d) && Apart(LinkBack(n, p), d)
    ensures Shape(next, prev[n := p], q, UnlockTail(n, p, false), d)
  {
    var prev', w' := prev[n := p], UnlockTail(n, p, false);
    assert p in EnqHolds(LinkBack(n, p));
    forall i: nat | i <= |q| ensures NextOk(next, q, w', i) {
      assert NextOk(next, q, LinkBack(n, p), i);
    }
    forall i: nat | i <= |q| ensures PrevOk(prev', q, w', d, i) {
      assert PrevOk(prev, q, LinkBack(n, p), d, i);
      if i < |q| - 1 {
        ChainDistinct(q, i + 1, |q|);
      } else if i == |q| {
        ChainDistinct(q, |q|, |q| + 1);
      }
    }
  }

  predicate Linking(w: EnqPc) {
    w.LinkPrev? || w.LinkNode? || w.LinkTail? || w.LinkBack?
  }

  lemma IdleShape(next: map<Node, Node>, prev: map<Node, Node>, q: seq<Node>, w: EnqPc, w': EnqPc, d: DeqPc)
    requires Shape(next, prev, q, w, d) && WriterInv(q, w')
    requires (!Linking(w) || w.LinkPrev?) && (!Linking(w') || w'.LinkPrev?)
    ensures Shape(next, prev, q, w', d)
  {
    forall i: nat | i <= |q| ensures NextOk(next, q, w', i) && PrevOk(prev, q, w', d, i) {
      assert NextOk(next, q, w, i) && PrevOk(prev, q, w, d, i);
    }
  }

  /** With the tail locked and no link under way, tail->prev is the last node of the list. */
  lemma CheckShape(next: map<Node, Node>, prev: map<Node, Node>, q: seq<Node>, n: Node, p: Node, d: DeqPc)
    requires Shape(next, prev, q, Check(n, p), d) && Apart(Check(n, p), d)
    ensures Tail in prev && prev[Tail] == Chain(q)[|q|]
    ensures prev[Tail] == p ==> Shape(next, prev, q, LinkPrev(n, p), d)
    ensures Shape(next, prev, q, UnlockTail(n, p, true), d)
  {
    assert Tail in EnqHolds(Check(n, p));
    assert PrevOk(prev, q, Check(n, p), d, |q|);
    if prev[Tail] == p {
      IdleShape(next, prev, q, Check(n, p), LinkPrev(n, p), d);
    }
    IdleShape(next, prev, q, Check(n, p), UnlockTail(n, p, true), d);
  }

  // ----- the dequeuer's steps on the list

  lemma QuietShape(next: map<Node, Node>, prev: map<Node, Node>, q: seq<Node>, w: EnqPc, d: DeqPc, d': DeqPc)
    requires Shape(next, prev, q, w, d) && !d.SetPrev? && !d'.SetPrev? && ReaderInv(q, d')
    ensures Shape(next, prev, q, w, d')
  {
    forall i: nat | i <= |q| ensures PrevOk(prev, q, w, d', i) {
      assert PrevOk(prev, q, w, d, i);
    }
  }

  /** head->next == tail exactly when the queue is empty. */
  lemma ReadFirstShape(next: map<Node, Node>, prev: map<Node, Node>, q: seq<Node>, w: EnqPc)
    requires Shape(next, prev, q, w, ReadFirst)
    ensures Head in next && next[Head] == Chain(q)[1] && (next[Head] == Tail <==> q == [])
    ensures q != [] ==> Shape(next, prev, q, w, LockFirst(next[Head]))
    ensures Shape(next, prev, q, w, UnlockHead(None))
  {
    assert NextOk(next, q, w, 0);
    QuietShape(next, prev, q, w, ReadFirst, UnlockHead(None));
    if q != [] {
      QuietShape(next, prev, q, w, ReadFirst, LockFirst(next[Head]));
    }
  }

  lemma ReadSecondShape(next: map<Node, Node>, prev: map<Node, Node>, q: seq<Node>, w: EnqPc, f: Node)
    requires Shape(next, prev, q, w, ReadSecond(f)) && Apart(w, ReadSecond(f))
    ensures f in next && Shape(next, prev, q, w, LockSecond(f, next[f]))
  {
    assert Head in DeqHolds(ReadSecond(f));
    assert w.LinkNode? ==> w.p in EnqHolds(w);
    assert NextOk(next, q, w, 1);
    QuietShape(next, prev, q, w, ReadSecond(f), LockSecond(f, next[f]));
  }

  /** While the first node is being removed the writer is further back. */
  lemma TakeEnds(q: seq<Node>, w: EnqPc, f: Node, c: Node)
    requires AllNew(q) && WriterInv(q, w) && ReaderInv(q, SetNext(f, c)) && Apart(w, SetNext(f, c))
    ensures w.LinkPrev? ==> |q| >= 2
    ensures w.LinkNode? || w.LinkTail? || w.LinkBack? ==> |q| >= 3
    ensures AllNew(q[1..]) && WriterInv(q[1..], w) && ReaderInv(q[1..], SetPrev(f, c))
  {
    assert Head in DeqHolds(SetNext(f, c)) && f in DeqHolds(SetNext(f, c)) && c in DeqHolds(SetNext(f, c));
    assert Linking(w) ==> w.p in EnqHolds(w) && Tail in EnqHolds(w);
    ChainDistinct(q, 1, 2);
    ChainDistinct(q, 0, 2);
  }

  lemma ChainRest(q: seq<Node>, i: nat)
    requires AllNew(q) && 0 < i <= |q|
    ensures Chain(q[1..])[i] == Chain(q)[i + 1] && Chain(q)[i] != Head
  {
    ChainDistinct(q, 0, i);
  }

  lemma TakeNext(next: map<Node, Node>, q: seq<Node>, w: EnqPc, c: Node, i: nat)
    requires AllNew(q) && q != [] && c == Chain(q)[2] && i < |q| && NextOk(next, q, w, i + 1)
    ensures NextOk(next[Head := c], q[1..], w, i)
  {
    if i > 0 {
      ChainRest(q, i);
    }
    ChainRest(q, i + 1);
    assert Chain(q[1..])[i] == Head <==> i == 0;
  }

  lemma TakePrev(prev: map<Node, Node>, q: seq<Node>, w: EnqPc, f: Node, c: Node, i: nat)
    requires AllNew(q) && q != [] && f == q[0] && i < |q| && PrevOk(prev, q, w, SetNext(f, c), i + 1)
    requires w.LinkNode? || w.LinkTail? || w.LinkBack? ==> |q| >= 3
    ensures PrevOk(prev, q[1..], w, SetPrev(f, c), i)
  {
    if i > 0 {
      ChainRest(q, i);
    }
    ChainRest(q, i + 1);
  }

  lemma TakeShape(next: map<Node, Node>, prev: map<Node, Node>, q: seq<Node>, w: EnqPc, f: Node, c: Node)
    requires Shape(next, prev, q, w, SetNext(f, c)) && Apart(w, SetNext(f, c))
    ensures Shape(next[Head := c], prev, q[1..], w, SetPrev(f, c))
  {
    var next', q', d' := next[Head := c], q[1..], SetPrev(f, c);
    TakeEnds(q, w, f, c);
    forall i: nat | i <= |q'| ensures NextOk(next', q', w, i) && PrevOk(prev, q', w, d', i) {
      TakeNext(next, q, w, c, i);
      TakePrev(prev, q, w, f, c, i);
    }
  }

  lemma BackSetShape(next: map<Node, Node>, prev: map<Node, Node>, q: seq<Node>, w: EnqPc, f: Node, c: Node)
    requires Shape(next, prev, q, w, SetPrev(f, c)) && Apart(w, SetPrev(f, c))
    ensures Shape(next, prev[c := Head], q, w, UnlockSecond(f, c))
  {
    var prev', d' := prev[c := Head], UnlockSecond(f, c);
    assert c in DeqHolds(SetPrev(f, c)) && Head in DeqHolds(SetPrev(f, c));
    assert Linking(w) ==> w.p in EnqHolds(w) && Tail in EnqHolds(w);
    forall i: nat | i <= |q| ensures PrevOk(prev', q, w, d', i) {
      assert PrevOk(prev, q, w, SetPrev(f, c), i);
      if i > 0 {
        ChainDistinct(q, 1, i + 1);
      }
    }
  }

  // ----- every step keeps the invariant

  lemma StaysApart(s: State)
    requires LockInv(s)
    ensures Apart(Writer(s), s.deq)
  {
    forall n | n in EnqHolds(Writer(s)) ensures n !in DeqHolds(s.deq) {
      if n in DeqHolds(s.deq) {
        WriterApart(s, n);
      }
    }
  }

  /** In every reachable state the pointers the code follows are set. */
  lemma AlwaysReady(s: State)
    requires Inv(s)
    ensures Ready(s) && s.prev[Tail] != Tail
  {
    var q, w := s.abs.queue, Writer(s);
    assert NextOk(s.next, q, w, 0) && PrevOk(s.prev, q, w, s.deq, |q|);
    if s.deq.ReadSecond? {
      StaysApart(s);
      ReadSecondShape(s.next, s.prev, q, w, s.deq.f);
    }
  }

  lemma NodesFollow(s: State, t: nat, s': State)
    requires NodeInv(s) && DoneInv(s) && t in s.enq && t in s'.enq && s'.enq == s.enq[t := s'.enq[t]] && s'.deq == s.deq
    requires BeforeCommit(s'.enq[t]) ==> BeforeCommit(s.enq[t]) && s'.enq[t].node == s.enq[t].node
    requires !s'.enq[t].Idle? && !s'.enq[t].ReadPrev? ==> s'.enq[t].p != Tail
    requires !s'.enq[t].Idle? && !BeforeCommit(s'.enq[t]) ==> !s.enq[t].Idle? && s'.enq[t].node == s.enq[t].node
    requires if BeforeCommit(s.enq[t]) && !BeforeCommit(s'.enq[t])
      then s'.abs == Abstract(s.abs.queue + [s.enq[t].node], s.abs.added + [s.enq[t].node], s.abs.taken)
      else s'.abs == s.abs
    ensures NodeInv(s') && DoneInv(s')
  {
    assert forall u :: u in s.enq && u != t ==> s'.enq[u] == s.enq[u];
  }

  /** What a step in mpmc_list_add_tail does outside the list: the thread keeps its node until it
      returns, and adds it to the queue exactly when it passes from before to behind its commit step. */
  lemma EnqPcStep(s: State, t: nat, s': State)
    requires t in s.enq && Tail in s.prev && EnqStep(s, t) == Some(s')
    ensures var pc, pc' := s.enq[t], if t in s'.enq then s'.enq[t] else Idle;
      && t in s'.enq && s'.enq == s.enq[t := pc'] && s'.deq == s.deq && !pc.Idle?
      && (BeforeCommit(pc') ==> BeforeCommit(pc))
      && (!pc'.Idle? ==> pc'.node == pc.node)
      && (pc'.Idle? ==> !BeforeCommit(pc))
      && (BeforeCommit(pc) && !BeforeCommit(pc') <==> pc.LinkPrev?)
      && s'.abs == if pc.LinkPrev? then Abstract(s.abs.queue + [pc.node], s.abs.added + [pc.node], s.abs.taken)
           else s.abs
  {
  }

  lemma EnqPrevNotTail(s: State, t: nat, s': State)
    requires t in s.enq && Tail in s.prev && s.prev[Tail] != Tail && EnqStep(s, t) == Some(s')
    requires !s.enq[t].Idle? && !s.enq[t].ReadPrev? ==> s.enq[t].p != Tail
    ensures t in s'.enq && (!s'.enq[t].Idle? && !s'.enq[t].ReadPrev? ==> s'.enq[t].p != Tail)
  {
  }

  lemma EnqNodes(s: State, t: nat, s': State)
    requires NodeInv(s) && DoneInv(s) && t in s.enq && Tail in s.prev && s.prev[Tail] != Tail
    requires !s.enq[t].Idle? && !s.enq[t].ReadPrev? ==> s.enq[t].p != Tail
    requires EnqStep(s, t) == Some(s')
    ensures NodeInv(s') && DoneInv(s')
  {
    hide NodeInv, DoneInv, BeforeCommit, EnqStep;
    EnqPcStep(s, t, s');
    EnqPrevNotTail(s, t, s');
    NodesFollow(s, t, s');
  }

  lemma EnqFacts(s: State, t: nat)
    requires Inv(s) && t in s.enq
    ensures LockInv(s) && Shape(s.next, s.prev, s.abs.queue, Writer(s), s.deq) && Apart(Writer(s), s.deq)
    ensures BeforeCommit(s.enq[t]) ==>
      s.enq[t].node.Elem? && s.enq[t].node !in s.abs.queue && !Taking(s.deq, s.enq[t].node)
    ensures !s.enq[t].Idle? && !s.enq[t].ReadPrev? ==> s.enq[t].p != Tail
  {
    StaysApart(s);
  }

  lemma EnqShape(s: State, t: nat, s': State)
    requires Inv(s) && Ready(s) && t in s.enq && EnqStep(s, t) == Some(s')
    ensures Shape(s'.next, s'.prev, s'.abs.queue, Writer(s'), s'.deq)
  {
    hide Inv, Shape, LockInv, NodeInv, DoneInv, Writer, Apart, Taking;
    var q, pc := s.abs.queue, s.enq[t];
    EnqFacts(s, t);
    WriterAfter(s, t, s');
    if pc.LinkPrev? {
      CommitShape(s.next, s.prev, q, pc.node, pc.p, s.deq);
    } else if pc.LinkNode? {
      NodeLinkedShape(s.next, s.prev, q, pc.node, pc.p, s.deq);
    } else if pc.LinkTail? {
      TailLinkedShape(s.next, s.prev, q, pc.node, pc.p, s.deq);
    } else if pc.LinkBack? {
      BackLinkedShape(s.next, s.prev, q, pc.node, pc.p, s.deq);
    } else if pc.Check? {
      CheckShape(s.next, s.prev, q, pc.node, pc.p, s.deq);
    } else if pc.LockTail? || pc.UnlockTail? {
      IdleShape(s.next, s.prev, q, Writer(s), Writer(s'), s.deq);
    }
  }

  lemma EnqKeeps(s: State, t: nat, s': State)
    requires Inv(s) && Ready(s) && t in s.enq && EnqStep(s, t) == Some(s')
    ensures Inv(s')
  {
    AlwaysReady(s);
    EnqLocks(s, t, s');
    EnqNodes(s, t, s');
    hide NodeInv, DoneInv, Shape, LockInv, BeforeCommit, Writer;
    EnqShape(s, t, s');
  }

  lemma DeqNodesFollow(s: State, s': State)
    requires NodeInv(s) && DoneInv(s) && s'.enq == s.enq && s'.abs.added == s.abs.added
    requires forall n :: n in s'.abs.queue ==> n in s.abs.queue
    requires forall n :: Taking(s'.deq, n) ==> Taking(s.deq, n) || n in s.abs.queue
    requires s'.deq.SetPrev? || s'.deq.UnlockSecond? || s'.deq.UnlockFirst? ==>
      s'.abs.taken != [] && s'.deq.f == s'.abs.taken[|s'.abs.taken| - 1]
    ensures NodeInv(s') && DoneInv(s')
  {
  }

  lemma DeqNodes(s: State, s': State)
    requires NodeInv(s) && DoneInv(s) && Ready(s) && DeqStep(s) == Some(s')
    requires s.deq.ReadFirst? && s.next[Head] != Tail ==> s.next[Head] in s.abs.queue
    ensures NodeInv(s') && DoneInv(s')
  {
    assert s.deq.UnlockSecond? || s.deq.SetPrev? ==> s.abs.taken != [] && s.deq.f == s.abs.taken[|s.abs.taken| - 1];
    hide NodeInv, DoneInv;
    DeqNodesFollow(s, s');
  }

  lemma DeqShape(s: State, s': State)
    requires Inv(s) && Ready(s) && DeqStep(s) == Some(s')
    ensures Shape(s'.next, s'.prev, s'.abs.queue, Writer(s), s'.deq)
    ensures s.deq.ReadFirst? ==>
      (s.next[Head] == Tail <==> s.abs.queue == []) && (s.abs.queue != [] ==> s.next[Head] == s.abs.queue[0])
  {
    var q, w, d := s.abs.queue, Writer(s), s.deq;
    StaysApart(s);
    if d.ReadFirst? {
      ReadFirstShape(s.next, s.prev, q, w);
    } else if d.ReadSecond? {
      ReadSecondShape(s.next, s.prev, q, w, d.f);
    } else if d.SetNext? {
      TakeShape(s.next, s.prev, q, w, d.f, d.s);
    } else if d.SetPrev? {
      BackSetShape(s.next, s.prev, q, w, d.f, d.s);
    } else {
      QuietShape(s.next, s.prev, q, w, d, s'.deq);
    }
  }

  /** The dequeuer's locks do not make or unmake a writer. */
  lemma DeqWriter(s: State, s': State)
    requires Inv(s) && Ready(s) && DeqStep(s) == Some(s')
    ensures Writer(s') == Writer(s)
  {
    assert Tail in HoldsOf(s, Deq) <==> Tail in s.locks && s.locks[Tail] == Deq;
  }

  lemma TakeFirst(taken: seq<Node>, q: seq<Node>)
    requires q != []
    ensures taken + q == (taken + [q[0]]) + q[1..]
  {
  }

  lemma DeqHistory(s: State, s': State)
    requires s.abs.added == s.abs.taken + s.abs.queue && ReaderInv(s.abs.queue, s.deq)
    requires Ready(s) && DeqStep(s) == Some(s')
    ensures s'.abs.added == s'.abs.taken + s'.abs.queue
  {
    if s.deq.SetNext? {
      TakeFirst(s.abs.taken, s.abs.queue);
    }
  }

  lemma DeqKeeps(s: State, s': State)
    requires Inv(s) && Ready(s) && DeqStep(s) == Some(s')
    ensures Inv(s')
  {
    DeqLocks(s, s');
    DeqShape(s, s');
    DeqWriter(s, s');
    DeqNodes(s, s');
    DeqHistory(s, s');
    hide LockInv, NodeInv, DoneInv, Shape, Writer, DeqStep;
  }

  lemma AddKeeps(s: State, t: nat, n: Node, s': State)
    requires Inv(s) && Next(s, Add(t, n), s')
    ensures Inv(s')
  {
    assert forall o :: HoldsOf(s', o) == HoldsOf(s, o);
    LocksKept(s, s', Deq);
    assert t in s.enq ==> (Tail in HoldsOf(s, Enq(t)) <==> Tail in s.locks && s.locks[Tail] == Enq(t));
    assert Writer(s') == Writer(s) by {
      assert Tail in HoldsOf(s, Enq(t)) <==> Tail in s.locks && s.locks[Tail] == Enq(t);
    }
    assert forall u :: u in s.enq && u != t ==> s'.enq[u] == s.enq[u];
  }

  lemma DelKeeps(s: State, s': State)
    requires Inv(s) && Next(s, Del, s')
    ensures Inv(s')
  {
    LocksKept(s, s', Deq);
    QuietShape(s.next, s.prev, s.abs.queue, Writer(s), s.deq, s'.deq);
  }

  lemma NextKeepsInv(s: State, a: Action, s': State)
    requires Inv(s) && Next(s, a, s')
    ensures Inv(s')
  {
    match a
    case Add(t, n) => AddKeeps(s, t, n, s');
    case EnqMove(t) => EnqKeeps(s, t, s');
    case Del => DelKeeps(s, s');
    case DeqMove => DeqKeeps(s, s');
  }

  // ----- runs

  ghost predicate Step(s: State, s': State) {
    exists a :: Next(s, a, s')
  }

  ghost predicate IsRun(run: seq<State>) {
    && run != [] && run[0] == Init()
    && forall i :: 0 <= i < |run| - 1 ==> Step(run[i], run[i + 1])
  }

  lemma {:induction false} RunsKeepInv(run: seq<State>, i: nat)
    requires IsRun(run) && i < |run|
    ensures Inv(run[i])
  {
    if i > 0 {
      RunsKeepInv(run, i - 1);
      assert Step(run[i - 1], run[i - 1 + 1]);
      var a :| Next(run[i - 1], a, run[i]);
      NextKeepsInv(run[i - 1], a, run[i]);
    }
  }

  /** What a step may do to the atomic queue: nothing, append one new node, or take its first. */
  ghost predicate AbsStep(g: Abstract, g': Abstract) {
    || g' == g
    || (exists n :: n !in g.queue && g' == Abstract(g.queue + [n], g.added + [n], g.taken))
    || (g.queue != [] && g' == Abstract(g.queue[1..], g.added, g.taken + [g.queue[0]]))
  }

  lemma StepRefines(s: State, a: Action, s': State)
    requires Inv(s) && Next(s, a, s')
    ensures AbsStep(s.abs, s'.abs)
  {
    if a.EnqMove? && s.enq[a.t].LinkPrev? {
      var n := s.enq[a.t].node;
      assert n !in s.abs.queue && s'.abs == Abstract(s.abs.queue + [n], s.abs.added + [n], s.abs.taken);
    }
  }

  /** In every interleaving the locked list is an atomic FIFO queue: each step is a queue step,
      and what was taken is, in order, the beginning of what was added, the rest being queued. */
  lemma RunsAreFifo(run: seq<State>, i: nat)
    requires IsRun(run) && i < |run|
    ensures run[i].abs.added == run[i].abs.taken + run[i].abs.queue
    ensures i + 1 < |run| ==> AbsStep(run[i].abs, run[i + 1].abs)
    ensures AllNew(run[i].abs.queue)
  {
    RunsKeepInv(run, i);
    if i + 1 < |run| {
      assert Step(run[i], run[i + 1]);
      var a :| Next(run[i], a, run[i + 1]);
      StepRefines(run[i], a, run[i + 1]);
    }
  }

  /** Thread `t` stores the link that adds its node. */
  predicate Commits(s: State, s': State, t: nat) {
    t in s.enq && t in s'.enq && s.enq[t].LinkPrev? && !s'.enq[t].LinkPrev?
  }

  /** The queue's history grows exactly by what one thread's commit adds. */
  lemma CommitAdds(s: State, a: Action, s': State)
    requires Next(s, a, s')
    ensures s'.abs.added != s.abs.added <==> a.EnqMove? && Commits(s, s', a.t)
    ensures forall t :: Commits(s, s', t) ==> a == EnqMove(t) && s'.abs.added == s.abs.added + [s.enq[t].node]
  {
    hide EnqStep;
    if a.EnqMove? {
      EnqPcStep(s, a.t, s');
      assert forall t :: t in s.enq && t != a.t ==> s'.enq[t] == s.enq[t];
    }
  }

  /** Thread `t` is in a call of mpmc_list_add_tail with `n`. */
  predicate Calling(s: State, t: nat, n: Node) {
    t in s.enq && !s.enq[t].Idle? && s.enq[t].node == n
  }

  lemma CallStep(s: State, a: Action, s': State, t: nat, n: Node)
    requires Calling(s, t, n) && Next(s, a, s')
    ensures t in s'.enq && (s'.enq[t].Idle? || Calling(s', t, n))
    ensures Commits(s, s', t) <==> BeforeCommit(s.enq[t]) && !BeforeCommit(s'.enq[t])
    ensures BeforeCommit(s'.enq[t]) ==> BeforeCommit(s.enq[t])
    ensures s'.enq[t].Idle? ==> !BeforeCommit(s.enq[t])
  {
    hide EnqStep;
    if a.EnqMove? {
      EnqPcStep(s, a.t, s');
    }
  }

  lemma CommitsFollow(s: State, s': State, t: nat, n: Node)
    requires Step(s, s') && Calling(s, t, n)
    ensures t in s'.enq && (s'.enq[t].Idle? || Calling(s', t, n))
    ensures Commits(s, s', t) <==> BeforeCommit(s.enq[t]) && !BeforeCommit(s'.enq[t])
    ensures BeforeCommit(s'.enq[t]) ==> BeforeCommit(s.enq[t])
    ensures s'.enq[t].Idle? ==> !BeforeCommit(s.enq[t])
    ensures Commits(s, s', t) ==> s'.abs.added == s.abs.added + [n]
  {
    var a :| Next(s, a, s');
    hide BeforeCommit, Next;
    CallStep(s, a, s', t, n);
    CommitAdds(s, a, s');
  }

  /** `k` is the only step from run[i] to run[j] at which thread `t` adds, and it adds `n`. */
  ghost predicate AddsOnce(run: seq<State>, t: nat, n: Node, i: nat, j: nat, k: nat) {
    && i <= k < j < |run| && run[k + 1].abs.added == run[k].abs.added + [n]
    && forall m :: i <= m < j ==> (Commits(run[m], run[m + 1], t) <==> m == k)
  }

  lemma {:induction false} CallSoFar(run: seq<State>, t: nat, n: Node, i: nat, j: nat) returns (k: nat)
    requires IsRun(run) && i <= j < |run| && t in run[i].enq && run[i].enq[t] == ReadPrev(n)
    requires forall m :: i <= m < j ==> t in run[m].enq && !run[m].enq[t].Idle?
    ensures t in run[j].enq && (run[j].enq[t].Idle? || Calling(run[j], t, n))
    ensures if BeforeCommit(run[j].enq[t]) then forall m :: i <= m < j ==> !Commits(run[m], run[m + 1], t)
      else AddsOnce(run, t, n, i, j, k)
    decreases j
  {
    hide Commits, Step;
    k := i;
    if j > i {
      k := CallSoFar(run, t, n, i, j - 1);
      assert Step(run[j - 1], run[j - 1 + 1]);
      CommitsFollow(run[j - 1], run[j], t, n);
      if Commits(run[j - 1], run[j], t) {
        k := j - 1;
      }
    }
  }

  /** A call of mpmc_list_add_tail(tail, n), from its first step to its return, adds `n` at exactly
      one of its steps and adds nothing else, in every run. */
  lemma EnqueueResult(run: seq<State>, t: nat, n: Node, i: nat, j: nat) returns (k: nat)
    requires IsRun(run) && i <= j < |run| && t in run[i].enq && run[i].enq[t] == ReadPrev(n)
    requires forall m :: i <= m < j ==> t in run[m].enq && !run[m].enq[t].Idle?
    requires t in run[j].enq && run[j].enq[t].Idle?
    ensures AddsOnce(run, t, n, i, j, k)
  {
    k := CallSoFar(run, t, n, i, j);
  }

  /** The node that a call of mpmc_list_del_head has taken so far, if any. */
  function TakenBy(d: DeqPc): Option<Node> {
    match d
    case SetPrev(f, _) => Some(f)
    case UnlockSecond(f, _) => Some(f)
    case UnlockFirst(f) => Some(f)
    case UnlockHead(first) => first
    case _ => None
  }

  /** What any step, of the dequeuer or of another thread, does to a call of mpmc_list_del_head. */
  lemma DequeueStep(s: State, s': State)
    requires Inv(s) && Step(s, s') && !s.deq.Resting?
    ensures s'.deq.Resting? ==> s.deq.UnlockHead? && s'.abs.taken == s.abs.taken
    ensures !s'.deq.Resting? && TakenBy(s'.deq) == TakenBy(s.deq) ==> s'.abs.taken == s.abs.taken
    ensures !s'.deq.Resting? && TakenBy(s'.deq) != TakenBy(s.deq) ==>
      && TakenBy(s.deq) == None && s.abs.queue != [] && TakenBy(s'.deq) == Some(s.abs.queue[0])
      && s'.abs.taken == s.abs.taken + [s.abs.queue[0]]
    ensures s'.deq == UnlockHead(None) && s.deq != s'.deq ==> s.abs.queue == []
  {
    var a :| Next(s, a, s');
    if a == DeqMove {
      hide Shape, LockInv, NodeInv, DoneInv, ReaderInv;
      DequeuerMoves(s, s');
    } else {
      hide Inv, EnqStep, DeqStep;
      if a.EnqMove? {
        EnqPcStep(s, a.t, s');
      }
    }
  }

  lemma DequeuerMoves(s: State, s': State)
    requires Inv(s) && Next(s, DeqMove, s')
    ensures s.deq.SetNext? ==> s.abs.queue != [] && s.deq.f == s.abs.queue[0]
    ensures s.deq.ReadFirst? ==> (s.next[Head] == Tail <==> s.abs.queue == [])
  {
    DeqShape(s, s');
  }

  /** `k` is the only step from run[i] to run[j] at which a node is taken, and it takes `f`, which
      then is the first of the queue. */
  ghost predicate TakesOnce(run: seq<State>, f: Node, i: nat, j: nat, k: nat) {
    && i <= k < j < |run| && run[k].abs.queue != [] && run[k].abs.queue[0] == f
    && forall m :: i <= m < j ==> run[m + 1].abs.taken == run[m].abs.taken + if m == k then [f] else []
  }

  ghost predicate TakesNone(run: seq<State>, i: nat, j: nat) {
    i <= j < |run| && forall m :: i <= m < j ==> run[m + 1].abs.taken == run[m].abs.taken
  }

  /** What a call of mpmc_list_del_head that began at run[i] has done by run[j]. */
  ghost predicate Dequeued(run: seq<State>, first: Option<Node>, i: nat, j: nat, k: nat) {
    if first.Some? then TakesOnce(run, first.value, i, j, k) else TakesNone(run, i, j)
  }

  lemma {:induction false} DequeueSoFar(run: seq<State>, i: nat, j: nat) returns (k: nat)
    requires IsRun(run) && i <= j < |run| && run[i].deq == LockHead
    requires forall m :: i <= m <= j ==> !run[m].deq.Resting?
    ensures Dequeued(run, TakenBy(run[j].deq), i, j, k)
    ensures run[j].deq == UnlockHead(None) ==> i <= k < j && run[k].abs.queue == []
    decreases j
  {
    hide Step, Inv;
    k := i;
    if j > i {
      k := DequeueSoFar(run, i, j - 1);
      assert Step(run[j - 1], run[j - 1 + 1]);
      RunsKeepInv(run, j - 1);
      DequeueStep(run[j - 1], run[j]);
      var d, d' := run[j - 1].deq, run[j].deq;
      if TakenBy(d') != TakenBy(d) || (d' == UnlockHead(None) && d != d') {
        k := j - 1;
      }
    }
  }

  /** A call of mpmc_list_del_head, from its first step to its return, in every run: it returns a node
      exactly if it took one, which was the first of the queue when it was taken, at one of its steps;
      and it returns NULL only after a moment at which the queue was empty, and then it took none. */
  lemma DequeueResult(run: seq<State>, i: nat, j: nat) returns (first: Option<Node>, k: nat)
    requires IsRun(run) && i < j < |run| && run[i].deq == LockHead
    requires run[j].deq.Resting? && forall m :: i <= m < j ==> !run[m].deq.Resting?
    ensures run[j - 1].deq == UnlockHead(first)
    ensures Dequeued(run, first, i, j, k)
    ensures first == None ==> i <= k < j && run[k].abs.queue == []
  {
    hide Step, Inv;
    k := DequeueSoFar(run, i, j - 1);
    assert Step(run[j - 1], run[j - 1 + 1]);
    RunsKeepInv(run, j - 1);
    DequeueStep(run[j - 1], run[j]);
    first := TakenBy(run[j - 1].deq);
  }

  /** With no call under way the links in both directions run through exactly the queued nodes. */
  lemma QuietList(s: State, i: nat)
    requires Inv(s) && s.locks == map[] && i <= |s.abs.queue|
    ensures var c := Chain(s.abs.queue);
      c[i] in s.next && s.next[c[i]] == c[i + 1] && c[i + 1] in s.prev && s.prev[c[i + 1]] == c[i]
  {
    assert NextOk(s.next, s.abs.queue, Writer(s), i) && PrevOk(s.prev, s.abs.queue, Writer(s), s.deq, i);
    assert Head in HoldsOf(s, Deq) ==> Head in s.locks;
  }

  // ----- some thread can always move

  /** A call to mpmc_list_add_tail or mpmc_list_del_head is under way. */
  ghost predicate Busy(s: State) {
    !s.deq.Resting? || exists t :: t in s.enq && !s.enq[t].Idle?
  }

  ghost predicate CanMove(s: State, o: Owner)
    requires Ready(s)
  {
    match o
    case Enq(t) => t in s.enq && EnqStep(s, t).Some?
    case Deq => DeqStep(s).Some?
  }

  /** A thread that holds the tail's lock never waits. */
  lemma TailHolderMoves(s: State)
    requires Inv(s) && Ready(s) && Tail in s.locks
    ensures CanMove(s, s.locks[Tail])
  {
    var o := s.locks[Tail];
    assert Tail in HoldsOf(s, o);
  }

  /** When no thread stands at or behind the tail's lock, only the dequeuer holds locks. */
  lemma OnlyDequeuerHolds(s: State, n: Node)
    requires Inv(s) && n in s.locks
    requires forall t :: t in s.enq ==> s.enq[t].Idle? || s.enq[t].ReadPrev? || s.enq[t].LockPrev?
    ensures n in DeqHolds(s.deq)
  {
    assert n in HoldsOf(s, s.locks[n]);
  }

  /** No deadlock: while any call is under way some thread can take a step. */
  lemma SomeThreadMoves(s: State) returns (o: Owner)
    requires Inv(s) && Ready(s) && Busy(s)
    ensures CanMove(s, o)
  {
    if Tail in s.locks {
      TailHolderMoves(s);
      return s.locks[Tail];
    }
    if t :| t in s.enq && !s.enq[t].Idle? && !s.enq[t].LockPrev? {
      return Enq(t);
    }
    forall n | n in s.locks ensures n in DeqHolds(s.deq) {
      OnlyDequeuerHolds(s, n);
    }
    if !s.deq.Resting? {
      return Deq;
    }
    var t :| t in s.enq && !s.enq[t].Idle?;
    return Enq(t);
  }

  lemma RunsMakeProgress(run: seq<State>, i: nat)
    requires IsRun(run) && i < |run| && Busy(run[i])
    ensures Ready(run[i]) && exists o :: CanMove(run[i], o)
  {
    RunsKeepInv(run, i);
    AlwaysReady(run[i]);
    var o := SomeThreadMoves(run[i]);
  }

  // ----- a call that runs alone returns

  /** How many steps thread `t` has left, when no other call is under way and its read is right. */
  function EnqLeft(pc: EnqPc): nat {
    match pc
    case Idle => 0
    case ReadPrev(_) => 10
    case LockPrev(_, _) => 9
    case LockTail(_, _) => 8
    case Check(_, _) => 7
    case LinkPrev(_, _) => 6
    case LinkNode(_, _) => 5
    case LinkTail(_, _) => 4
    case LinkBack(_, _) => 3
    case UnlockTail(_, _, _) => 2
    case UnlockPrev(_, _, _) => 1
  }

  function DeqLeft(d: DeqPc): nat {
    match d
    case Resting => 0
    case LockHead => 10
    case ReadFirst => 9
    case LockFirst(_) => 8
    case ReadSecond(_) => 7
    case LockSecond(_, _) => 6
    case SetNext(_, _) => 5
    case SetPrev(_, _) => 4
    case UnlockSecond(_, _) => 3
    case UnlockFirst(_) => 2
    case UnlockHead(_) => 1
  }

  /** Only thread `t` is in a call, and what it has read of tail->prev is right. */
  ghost predicate OnlyEnq(s: State, t: nat) {
    && t in s.enq && s.deq.Resting? && (forall u :: u in s.enq && u != t ==> s.enq[u].Idle?)
    && RightRead(s.prev, s.enq[t])
  }

  predicate RightRead(prev: map<Node, Node>, pc: EnqPc) {
    && (pc.LockPrev? || pc.LockTail? || pc.Check? ==> Tail in prev && prev[Tail] == pc.p)
    && (pc.UnlockTail? || pc.UnlockPrev? ==> !pc.again)
  }

  ghost predicate OnlyDeq(s: State) {
    Inv(s) && forall t :: t in s.enq ==> s.enq[t].Idle?
  }

  /** A lock is held only by the one thread that is in a call. */
  lemma LocksAlone(s: State, o: Owner, n: Node)
    requires LockInv(s) && n in s.locks && forall u :: u != o ==> HoldsOf(s, u) == {}
    ensures n in HoldsOf(s, o)
  {
    assert n in HoldsOf(s, s.locks[n]);
  }

  lemma EnqAloneMoves(s: State, t: nat)
    requires Inv(s) && OnlyEnq(s, t) && Ready(s) && !s.enq[t].Idle?
    ensures EnqStep(s, t).Some?
  {
    hide Shape, NodeInv, DoneInv;
    var pc := s.enq[t];
    assert forall u :: u != Enq(t) ==> HoldsOf(s, u) == {};
    EnqFacts(s, t);
    if pc.LockPrev? && pc.p in s.locks {
      LocksAlone(s, Enq(t), pc.p);
    } else if pc.LockTail? && Tail in s.locks {
      LocksAlone(s, Enq(t), Tail);
    }
  }

  /** Where such a thread stands after its next step. */
  function NextPc(pc: EnqPc, last: Node): EnqPc {
    match pc
    case Idle => Idle
    case ReadPrev(n) => LockPrev(n, last)
    case LockPrev(n, p) => LockTail(n, p)
    case LockTail(n, p) => Check(n, p)
    case Check(n, p) => LinkPrev(n, p)
    case LinkPrev(n, p) => LinkNode(n, p)
    case LinkNode(n, p) => LinkTail(n, p)
    case LinkTail(n, p) => LinkBack(n, p)
    case LinkBack(n, p) => UnlockTail(n, p, false)
    case UnlockTail(n, p, again) => UnlockPrev(n, p, again)
    case UnlockPrev(n, p, again) => Idle
  }

  lemma NextPcFollows(s: State, t: nat, s': State)
    requires t in s.enq && RightRead(s.prev, s.enq[t]) && Tail in s.prev && EnqStep(s, t) == Some(s')
    ensures s'.enq == s.enq[t := NextPc(s.enq[t], s.prev[Tail])]
    ensures s.enq[t].ReadPrev? || s.enq[t].LockPrev? || s.enq[t].LockTail? ==> s'.prev == s.prev
  {
  }

  lemma NextPcRight(pc: EnqPc, prev: map<Node, Node>, prev': map<Node, Node>)
    requires RightRead(prev, pc) && Tail in prev && !pc.Idle?
    requires pc.ReadPrev? || pc.LockPrev? || pc.LockTail? ==> prev' == prev
    ensures var pc' := NextPc(pc, prev[Tail]); RightRead(prev', pc') && EnqLeft(pc') == EnqLeft(pc) - 1
  {
  }

  lemma OnlyEnqFollows(s: State, t: nat, s': State)
    requires OnlyEnq(s, t) && Tail in s.prev && EnqStep(s, t) == Some(s')
    ensures OnlyEnq(s', t) && EnqLeft(s'.enq[t]) == EnqLeft(s.enq[t]) - 1
  {
    hide EnqStep, EnqLeft, BeforeCommit, RightRead, NextPc;
    NextPcFollows(s, t, s');
    EnqPcStep(s, t, s');
    NextPcRight(s.enq[t], s.prev, s'.prev);
  }

  lemma EnqAloneStep(s: State, t: nat) returns (s': State)
    requires Inv(s) && OnlyEnq(s, t) && t in s.enq && !s.enq[t].Idle?
    ensures Next(s, EnqMove(t), s') && Inv(s') && OnlyEnq(s', t) && t in s'.enq
    ensures EnqLeft(s'.enq[t]) == EnqLeft(s.enq[t]) - 1
    ensures s'.abs.added + (if BeforeCommit(s'.enq[t]) then [s'.enq[t].node] else [])
      == s.abs.added + if BeforeCommit(s.enq[t]) then [s.enq[t].node] else []
  {
    hide Inv, EnqStep, OnlyEnq, BeforeCommit, EnqLeft;
    AlwaysReady(s);
    EnqAloneMoves(s, t);
    s' := EnqStep(s, t).value;
    EnqKeeps(s, t, s');
    OnlyEnqFollows(s, t, s');
    EnqPcStep(s, t, s');
  }

  /** A call of mpmc_list_add_tail that no other call disturbs returns after at most ten steps, with
      its node added. */
  lemma {:induction false} EnqAloneReturns(s: State, t: nat) returns (run: seq<State>)
    requires Inv(s) && t in s.enq && OnlyEnq(s, t)
    ensures |run| == EnqLeft(s.enq[t]) + 1 && run[0] == s
    ensures forall i :: 0 <= i < |run| - 1 ==> Next(run[i], EnqMove(t), run[i + 1])
    ensures var s' := run[|run| - 1];
      && t in s'.enq && s'.enq[t].Idle?
      && s'.abs.added == s.abs.added + if BeforeCommit(s.enq[t]) then [s.enq[t].node] else []
    decreases EnqLeft(s.enq[t])
  {
    hide Inv, OnlyEnq, Next;
    if s.enq[t].Idle? {
      run := [s];
    } else {
      var s' := EnqAloneStep(s, t);
      var rest := EnqAloneReturns(s', t);
      run := [s] + rest;
    }
  }

  lemma DeqAloneMoves(s: State)
    requires OnlyDeq(s) && Ready(s) && !s.deq.Resting?
    ensures DeqStep(s).Some?
  {
    hide NodeInv, DoneInv;
    var d, q := s.deq, s.abs.queue;
    assert forall u :: u != Deq ==> HoldsOf(s, u) == {};
    if d.LockSecond? {
      ChainDistinct(q, 0, 2);
      ChainDistinct(q, 1, 2);
    }
    var n := if d.LockHead? then Head else if d.LockFirst? then d.f else if d.LockSecond? then d.s else Tail;
    if n in s.locks {
      LocksAlone(s, Deq, n);
    }
  }

  lemma DeqAloneStep(s: State) returns (s': State)
    requires OnlyDeq(s) && !s.deq.Resting?
    ensures Next(s, DeqMove, s') && OnlyDeq(s') && DeqLeft(s'.deq) < DeqLeft(s.deq)
    ensures s.deq.ReadFirst? && s.abs.queue != [] ==> s'.deq.LockFirst?
    ensures s.deq.LockHead? ==> s'.deq.ReadFirst? && s'.abs == s.abs
  {
    hide Inv;
    AlwaysReady(s);
    DeqAloneMoves(s);
    s' := DeqStep(s).value;
    DeqKeeps(s, s');
    if s.deq.ReadFirst? {
      DequeuerMoves(s, s');
    }
  }

  /** A call of mpmc_list_del_head that no other call disturbs returns after at most ten steps. */
  lemma {:induction false} DeqAloneReturns(s: State) returns (run: seq<State>)
    requires OnlyDeq(s)
    ensures 1 <= |run| <= DeqLeft(s.deq) + 1 && run[0] == s
    ensures forall i :: 0 <= i < |run| - 1 ==> Next(run[i], DeqMove, run[i + 1])
    ensures OnlyDeq(run[|run| - 1]) && run[|run| - 1].deq.Resting?
    decreases DeqLeft(s.deq)
  {
    hide OnlyDeq, Next;
    if s.deq.Resting? {
      run := [s];
    } else {
      var s' := DeqAloneStep(s);
      var rest := DeqAloneReturns(s');
      run := [s] + rest;
    }
  }

  // ----- the enqueue as it is written

  /** mpmc_list_add_tail without the second look at tail->prev: once it has both locks the thread
      stores prev->next = node. */
  function EnqStepAsWritten(s: State, t: nat): Option<State>
    requires t in s.enq && Tail in s.prev
  {
    match s.enq[t]
    case Check(n, p) => EnqStep(At(s, t, LinkPrev(n, p)), t)
    case _ => EnqStep(s, t)
  }

  /** The steps of the code as it is written. */
  predicate NextAsWritten(s: State, a: Action, s': State) {
    if a.EnqMove? then Ready(s) && a.t in s.enq && EnqStepAsWritten(s, a.t) == Some(s') else Next(s, a, s')
  }

  /** A thread that is about to store its link read tail->prev before it held the locks; what it
      read is still right. */
  predicate Fresh(s: State, a: Action) {
    a.EnqMove? && a.t in s.enq && s.enq[a.t].Check? && Tail in s.prev ==> s.prev[Tail] == s.enq[a.t].p
  }

  predicate Follows(s: State, i: nat)
    requires i < |s.abs.queue|
  {
    var c := Chain(s.abs.queue);
    c[i] in s.next && s.next[c[i]] == c[i + 1]
  }

  /** From head the next links lead through all queued nodes, in order; the last node's own link
      may be missing while it is being added. */
  ghost predicate Reached(s: State) {
    forall i: nat :: i < |s.abs.queue| ==> Follows(s, i)
  }

  lemma InvReached(s: State)
    requires Inv(s)
    ensures Reached(s)
  {
    forall i: nat | i < |s.abs.queue| ensures Follows(s, i) {
      assert NextOk(s.next, s.abs.queue, Writer(s), i);
    }
  }

  lemma FreshCommit(s: State, t: nat, s': State)
    requires Inv(s) && Ready(s) && t in s.enq && s.enq[t].Check? && EnqStepAsWritten(s, t) == Some(s')
    requires s.prev[Tail] == s.enq[t].p
    ensures Inv(s')
  {
    hide Inv;
    var s1 := At(s, t, LinkPrev(s.enq[t].node, s.enq[t].p));
    EnqKeeps(s, t, s1);
    AlwaysReady(s1);
    EnqKeeps(s1, t, s');
  }

  /** With a stale read the last node's link still leads to tail: the new node comes after another. */
  lemma StaleCommit(s: State, t: nat, s': State)
    requires Inv(s) && Ready(s) && t in s.enq && s.enq[t].Check? && EnqStepAsWritten(s, t) == Some(s')
    requires s.prev[Tail] != s.enq[t].p
    ensures !Reached(s')
  {
    var q, pc := s.abs.queue, s.enq[t];
    EnqFacts(s, t);
    assert Tail in HoldsOf(s, Enq(t));
    CheckShape(s.next, s.prev, q, pc.node, pc.p, s.deq);
    assert NextOk(s.next, q, Writer(s), |q|);
    assert s'.abs.queue == q + [pc.node] && Chain(s'.abs.queue)[|q|] == Chain(q)[|q|];
    assert !Follows(s', |q|);
  }

  /** As written, the store prev->next = node leaves the next links running through all queued nodes
      exactly when tail->prev is what the thread read before it had the locks. */
  lemma CommitAsWrittenIff(s: State, t: nat, s': State)
    requires Inv(s) && Ready(s) && t in s.enq && s.enq[t].Check? && EnqStepAsWritten(s, t) == Some(s')
    ensures Reached(s') <==> s.prev[Tail] == s.enq[t].p
    ensures Inv(s') <==> s.prev[Tail] == s.enq[t].p
  {
    hide Inv, Reached, EnqStepAsWritten;
    if s.prev[Tail] == s.enq[t].p {
      FreshCommit(s, t, s');
      InvReached(s');
    } else {
      StaleCommit(s, t, s');
      if Inv(s') {
        InvReached(s');
      }
    }
  }

  lemma NextAsWrittenIff(s: State, a: Action, s': State)
    requires Inv(s) && NextAsWritten(s, a, s')
    ensures Inv(s') <==> Fresh(s, a)
    ensures Reached(s') <==> Fresh(s, a)
  {
    hide Inv, EnqStep, Reached;
    if a.EnqMove? && s.enq[a.t].Check? {
      CommitAsWrittenIff(s, a.t, s');
    } else {
      NextKeepsInv(s, a, s');
      InvReached(s');
    }
  }

  lemma CheckStep(s: State, t: nat)
    requires t in s.enq && Tail in s.prev && s.enq[t].Check? && s.prev[Tail] == s.enq[t].p
    ensures var s1 := At(s, t, LinkPrev(s.enq[t].node, s.enq[t].p));
      EnqStep(s, t) == Some(s1) && EnqStepAsWritten(s, t) == EnqStep(s1, t)
  {
  }

  /** With a fresh read the store is still a step of the atomic queue. */
  lemma FreshRefines(s: State, a: Action, s': State)
    requires Inv(s) && NextAsWritten(s, a, s') && Fresh(s, a)
    ensures AbsStep(s.abs, s'.abs)
  {
    hide Inv, EnqStep, AbsStep;
    if a.EnqMove? && s.enq[a.t].Check? {
      var s1 := At(s, a.t, LinkPrev(s.enq[a.t].node, s.enq[a.t].p));
      CheckStep(s, a.t);
      EnqKeeps(s, a.t, s1);
      AlwaysReady(s1);
      StepRefines(s1, a, s');
    } else {
      StepRefines(s, a, s');
    }
  }

  ghost predicate StepAsWritten(s: State, s': State) {
    exists a :: NextAsWritten(s, a, s')
  }

  ghost predicate FreshStep(s: State, s': State) {
    exists a :: NextAsWritten(s, a, s') && Fresh(s, a)
  }

  ghost predicate IsRunAsWritten(run: seq<State>) {
    && run != [] && run[0] == Init()
    && forall i :: 0 <= i < |run| - 1 ==> StepAsWritten(run[i], run[i + 1])
  }

  ghost predicate AllFresh(run: seq<State>) {
    forall i :: 0 <= i < |run| - 1 ==> FreshStep(run[i], run[i + 1])
  }

  lemma InitInv()
    ensures Inv(Init())
  {
  }

  lemma {:induction false} FreshRunsKeepInv(run: seq<State>, i: nat)
    requires IsRunAsWritten(run) && AllFresh(run) && i < |run|
    ensures Inv(run[i])
  {
    hide Inv, NextAsWritten, Fresh;
    if i == 0 {
      InitInv();
    } else {
      FreshRunsKeepInv(run, i - 1);
      assert FreshStep(run[i - 1], run[i - 1 + 1]);
      var a :| NextAsWritten(run[i - 1], a, run[i]) && Fresh(run[i - 1], a);
      NextAsWrittenIff(run[i - 1], a, run[i]);
    }
  }

  lemma {:induction false} ReachedRunsKeepInv(run: seq<State>, i: nat)
    requires IsRunAsWritten(run) && i < |run| && forall j :: 0 <= j <= i ==> Reached(run[j])
    ensures Inv(run[i]) && forall j :: 0 <= j < i ==> FreshStep(run[j], run[j + 1])
  {
    hide Inv, NextAsWritten, Fresh, Reached;
    if i == 0 {
      InitInv();
    } else {
      ReachedRunsKeepInv(run, i - 1);
      assert StepAsWritten(run[i - 1], run[i - 1 + 1]);
      var a :| NextAsWritten(run[i - 1], a, run[i]);
      NextAsWrittenIff(run[i - 1], a, run[i]);
    }
  }

  /** In a run of the code as it is written every queued node can be reached from head, in every
      state, exactly when no thread ever stores its link after a stale read. */
  lemma AsWrittenIff(run: seq<State>)
    requires IsRunAsWritten(run)
    ensures (forall i :: 0 <= i < |run| ==> Reached(run[i])) <==> AllFresh(run)
  {
    hide Inv, Reached, StepAsWritten, FreshStep;
    if forall i :: 0 <= i < |run| ==> Reached(run[i]) {
      ReachedRunsKeepInv(run, |run| - 1);
    }
    if AllFresh(run) {
      forall i | 0 <= i < |run| ensures Reached(run[i]) {
        FreshRunsKeepInv(run, i);
        InvReached(run[i]);
      }
    }
  }

  /** ... and without a stale read the code as it is written is an atomic FIFO queue too. */
  lemma FreshRunsAreFifo(run: seq<State>, i: nat)
    requires IsRunAsWritten(run) && AllFresh(run) && i < |run|
    ensures run[i].abs.added == run[i].abs.taken + run[i].abs.queue
    ensures i + 1 < |run| ==> AbsStep(run[i].abs, run[i + 1].abs)
  {
    hide NextAsWritten, Fresh, AbsStep;
    FreshRunsKeepInv(run, i);
    if i + 1 < |run| {
      assert FreshStep(run[i], run[i + 1]);
      var a :| NextAsWritten(run[i], a, run[i + 1]) && Fresh(run[i], a);
      FreshRefines(run[i], a, run[i + 1]);
    }
  }

  /** Thread `t` alone takes the steps from run[0] to the last state of `run`. */
  ghost predicate Alone(run: seq<State>, t: nat) {
    && run != []
    && (forall i :: 0 <= i < |run| ==> t in run[i].enq && Ready(run[i]))
    && forall i :: 0 <= i < |run| - 1 ==> EnqStepAsWritten(run[i], t) == Some(run[i + 1])
  }

  lemma AlonePlus(a: seq<State>, b: seq<State>, t: nat)
    requires Alone(a, t) && Alone(b, t) && a[|a| - 1] == b[0]
    ensures Alone(a + b[1..], t)
  {
    var run := a + b[1..];
    forall i | 0 <= i < |run| - 1 ensures EnqStepAsWritten(run[i], t) == Some(run[i + 1]) {
      if i >= |a| - 1 {
        assert run[i] == b[i - |a| + 1] && run[i + 1] == b[i - |a| + 2];
      }
    }
  }

  lemma LockBoth(s: State, t: nat, n: Node, p: Node) returns (run: seq<State>)
    requires t in s.enq && Ready(s) && s.deq.Resting? && s.enq[t] == LockPrev(n, p)
    requires p !in s.locks && Tail !in s.locks && p != Tail
    ensures |run| == 3 && run[0] == s && Alone(run, t)
    ensures run[2] == At(s, t, Check(n, p)).(locks := s.locks[p := Enq(t)][Tail := Enq(t)])
  {
    var s1 := EnqStepAsWritten(s, t).value;
    var s2 := EnqStepAsWritten(s1, t).value;
    run := [s, s1, s2];
    assert s.enq[t := LockTail(n, p)][t := Check(n, p)] == s.enq[t := Check(n, p)];
  }

  lemma LinkForward(s: State, t: nat, n: Node, p: Node) returns (run: seq<State>)
    requires t in s.enq && Ready(s) && s.deq.Resting? && s.enq[t] == Check(n, p)
    ensures |run| == 3 && run[0] == s && Alone(run, t)
    ensures run[2] == At(s, t, LinkTail(n, p)).(next := s.next[p := n][n := Tail],
      abs := Abstract(s.abs.queue + [n], s.abs.added + [n], s.abs.taken))
  {
    var s1 := EnqStepAsWritten(s, t).value;
    var s2 := EnqStepAsWritten(s1, t).value;
    run := [s, s1, s2];
    assert s.enq[t := LinkPrev(n, p)][t := LinkNode(n, p)][t := LinkTail(n, p)] == s.enq[t := LinkTail(n, p)];
  }

  lemma LinkBackward(s: State, t: nat, n: Node, p: Node) returns (run: seq<State>)
    requires t in s.enq && Ready(s) && s.deq.Resting? && s.enq[t] == LinkTail(n, p)
    ensures |run| == 3 && run[0] == s && Alone(run, t)
    ensures run[2] == At(s, t, UnlockTail(n, p, false)).(prev := s.prev[Tail := n][n := p])
  {
    var s1 := EnqStepAsWritten(s, t).value;
    var s2 := EnqStepAsWritten(s1, t).value;
    run := [s, s1, s2];
    assert s.enq[t := LinkBack(n, p)][t := UnlockTail(n, p, false)] == s.enq[t := UnlockTail(n, p, false)];
  }

  lemma UnlockBoth(s: State, t: nat, n: Node, p: Node) returns (run: seq<State>)
    requires t in s.enq && Ready(s) && s.deq.Resting? && s.enq[t] == UnlockTail(n, p, false)
    ensures |run| == 3 && run[0] == s && Alone(run, t)
    ensures run[2] == At(s, t, Idle).(locks := s.locks - {Tail} - {p})
  {
    var s1 := EnqStepAsWritten(s, t).value;
    var s2 := EnqStepAsWritten(s1, t).value;
    run := [s, s1, s2];
    assert s.enq[t := UnlockPrev(n, p, false)][t := Idle] == s.enq[t := Idle];
  }

  /** What a thread that finds both locks free does to the list after its read of tail->prev. */
  lemma WholeCall(s: State, t: nat, n: Node, p: Node) returns (run: seq<State>)
    requires t in s.enq && Ready(s) && s.deq.Resting? && s.enq[t] == LockPrev(n, p)
    requires p !in s.locks && Tail !in s.locks && p != Tail
    ensures |run| == 9 && run[0] == s && Alone(run, t)
    ensures run[8] == State(s.next[p := n][n := Tail], s.prev[Tail := n][n := p], s.locks, s.enq[t := Idle], s.deq,
      Abstract(s.abs.queue + [n], s.abs.added + [n], s.abs.taken))
  {
    hide Alone, EnqStepAsWritten;
    var a := LockBoth(s, t, n, p);
    var b := LinkForward(a[2], t, n, p);
    var c := LinkBackward(b[2], t, n, p);
    var d := UnlockBoth(c[2], t, n, p);
    AlonePlus(a, b, t);
    AlonePlus(a + b[1..], c, t);
    AlonePlus(a + b[1..] + c[1..], d, t);
    run := a + b[1..] + c[1..] + d[1..];
    assert d[2].locks == s.locks;
    assert d[2].enq == s.enq[t := Idle];
  }

  /** Two threads begin their calls, and both read tail->prev == head. */
  lemma BothRead(a: nat, b: nat) returns (run: seq<State>)
    requires a != b
    ensures IsRunAsWritten(run)
    ensures run[|run| - 1] == Init().(enq := map[0 := LockPrev(Elem(a), Head), 1 := LockPrev(Elem(b), Head)])
  {
    var s0 := Init();
    var s1 := At(s0, 0, ReadPrev(Elem(a)));
    var s2 := At(s1, 1, ReadPrev(Elem(b)));
    var s3 := At(s2, 0, LockPrev(Elem(a), Head));
    var s4 := At(s3, 1, LockPrev(Elem(b), Head));
    assert NextAsWritten(s0, Add(0, Elem(a)), s1) && NextAsWritten(s1, Add(1, Elem(b)), s2);
    assert NextAsWritten(s2, EnqMove(0), s3) && NextAsWritten(s3, EnqMove(1), s4);
    run := [s0, s1, s2, s3, s4];
    assert s4.enq == map[0 := LockPrev(Elem(a), Head), 1 := LockPrev(Elem(b), Head)];
  }

  lemma ThenAlone(run: seq<State>, more: seq<State>, t: nat)
    requires IsRunAsWritten(run) && Alone(more, t) && more[0] == run[|run| - 1]
    ensures IsRunAsWritten(run + more[1..])
  {
    var all := run + more[1..];
    forall i | 0 <= i < |all| - 1 ensures StepAsWritten(all[i], all[i + 1]) {
      if i >= |run| - 1 {
        var k := i - |run| + 1;
        assert all[i] == more[k] && all[i + 1] == more[k + 1];
        assert NextAsWritten(more[k], EnqMove(t), more[k + 1]);
      }
    }
  }

  /** A run of the code as it is written: two threads have both read tail->prev == head when the
      first goes through, and then the second.  Both calls have returned and no lock is held, yet
      the first node cannot be reached. */
  lemma StaleReadLosesNode(a: nat, b: nat) returns (run: seq<State>)
    requires a != b
    ensures IsRunAsWritten(run)
    ensures var done := run[|run| - 1];
      && done.enq == map[0 := Idle, 1 := Idle] && done.locks == map[] && done.abs.added == [Elem(b), Elem(a)]
      && Head in done.next && done.next[Head] == Elem(a) && Elem(a) in done.next && done.next[Elem(a)] == Tail
      && done.abs.queue == done.abs.added && !Reached(done)
  {
    hide Alone, EnqStepAsWritten, IsRunAsWritten;
    run := BothRead(a, b);
    var first := WholeCall(run[|run| - 1], 1, Elem(b), Head);
    ThenAlone(run, first, 1);
    run := run + first[1..];
    var second := WholeCall(first[8], 0, Elem(a), Head);
    ThenAlone(run, second, 0);
    run := run + second[1..];
    assert !Follows(second[8], 0);
  }
}
