/** network/src/xy_epoll.cc: the event poll with its red-black tree of items, its ready list
    and its two counters.

    Three places are modelled by what they are evidently meant to do: XY_EPOLL_CTL_DEL takes a
    ready item off the ready list before it is freed (xy_epoll.cc:72-79 leaves it there),
    XY_EPOLL_CTL_ADD clears the new item's ready flag (:45-53 leaves it as malloc made it), and
    epoll_event_callback acts on the poll the socket is registered with (:181 looks a poll up by
    the socket's own id, which has none: SocketMap's GetById).
    The ready list is a sequence here; XyList has the linked list itself. */
module Epoll {
  import opened Common
  import opened RbModel
  import RbHeap
  import RbTree

  const EPOLLERR: bv32 := 0x0008
  const EPOLLHUP: bv32 := 0x0010

  datatype Event = Event(events: bv32, data: bv64)

  // ----- the poll as a plain map and a list of ready sockets

  datatype Poll = Poll(table: map<int, Event>, ready: seq<int>)

  /** Ready sockets are registered, and listed once. */
  ghost predicate PollOk(p: Poll) {
    && (forall k :: k in p.ready ==> k in p.table)
    && NoDup(p.ready)
  }

  /** The sequence without the first occurrence of `x`. */
  function Without<T(==)>(s: seq<T>, x: T): (r: seq<T>)
    ensures x !in s ==> r == s
    ensures x in s ==> |r| == |s| - 1
  {
    if s == [] then [] else if s[0] == x then s[1..] else [s[0]] + Without(s[1..], x)
  }

  function Added(p: Poll, k: int, e: Event): Poll {
    if k in p.table then p else Poll(p.table[k := e], p.ready)
  }

  function Deleted(p: Poll, k: int): Poll {
    Poll(p.table - {k}, Without(p.ready, k))
  }

  /** MOD replaces the event mask, always watching for errors and hang-ups, and keeps the data. */
  function Modified(p: Poll, k: int, mask: bv32): Poll {
    if k !in p.table then p else Poll(p.table[k := Event(mask | EPOLLERR | EPOLLHUP, p.table[k].data)], p.ready)
  }

  /** An event on a ready socket adds to its mask; otherwise the socket becomes ready, at the head. */
  function Signaled(p: Poll, k: int, mask: bv32): Poll
    requires k in p.table
  {
    if k in p.ready then Poll(p.table[k := Event(p.table[k].events | mask, p.table[k].data)], p.ready)
    else Poll(p.table, [k] + p.ready)
  }

  function Taken(p: Poll, max: nat): nat {
    if |p.ready| > max then max else |p.ready|
  }

  function Drained(p: Poll, max: nat): Poll {
    Poll(p.table, p.ready[Taken(p, max)..])
  }

  ghost function ReadyAt(p: Poll, i: nat): (k: int)
    requires PollOk(p) && i < |p.ready|
    ensures k in p.table
  {
    p.ready[i]
  }

  /** What one wait reports, in order. */
  ghost function Reported(p: Poll, n: nat): (out: seq<Event>)
    requires PollOk(p) && n <= |p.ready|
  {
    seq(n, i requires 0 <= i < n => p.table[ReadyAt(p, i)])
  }

  datatype Op = Add(k: int, e: Event) | Del(k: int) | Mod(k: int, mask: bv32) | Signal(k: int, mask: bv32)
    | Wait(max: nat)

  /** A signal for an unregistered socket fails an assertion in the code, and changes nothing. */
  function Apply(p: Poll, op: Op): Poll {
    match op
    case Add(k, e) => Added(p, k, e)
    case Del(k) => Deleted(p, k)
    case Mod(k, mask) => Modified(p, k, mask)
    case Signal(k, mask) => if k in p.table then Signaled(p, k, mask) else p
    case Wait(max) => Drained(p, max)
  }

  /** `r` has the members of `s` but for `x`. */
  ghost predicate AllBut<T>(r: seq<T>, s: seq<T>, x: T) {
    && (forall y :: y in r ==> y in s && y != x)
    && (forall y :: y in s && y != x ==> y in r)
  }

  lemma {:induction false} WithoutMembers<T>(s: seq<T>, x: T)
    requires NoDup(s)
    ensures AllBut(Without(s, x), s, x) && NoDup(Without(s, x))
  {
    if s != [] {
      assert s == [s[0]] + s[1..] && s[0] !in s[1..];
      WithoutMembers(s[1..], x);
    }
  }

  /** XY_EPOLL_CTL_DEL as it is written leaves a ready item on the list: a freed one. */
  lemma DeletedAsWrittenIff(p: Poll, k: int)
    requires PollOk(p)
    ensures PollOk(Poll(p.table - {k}, p.ready)) <==> k !in p.ready
  {
  }

  /** An ADD and a signal lead to such a poll. */
  lemma DeletedAsWrittenFails(k: int, e: Event, mask: bv32) returns (p: Poll)
    ensures p == ApplyAll(Poll(map[], []), [Add(k, e), Signal(k, mask)])
    ensures PollOk(p) && !PollOk(Poll(p.table - {k}, p.ready))
  {
    var ops, p0, p1 := [Add(k, e), Signal(k, mask)], Poll(map[], []), Poll(map[k := e], []);
    p := ApplyAll(p0, ops);
    RunsKeepOk(p0, ops);
    assert ops[1..] == [Signal(k, mask)] && [Signal(k, mask)][1..] == [];
    assert Apply(p0, ops[0]) == p1 && Apply(p1, Signal(k, mask)) == Poll(map[k := e], [k] + []);
    assert ApplyAll(p1, [Signal(k, mask)]) == ApplyAll(Poll(map[k := e], [k]), []);
    DeletedAsWrittenIff(p, k);
  }

  lemma ApplyKeepsOk(p: Poll, op: Op)
    requires PollOk(p)
    ensures PollOk(Apply(p, op))
  {
    match op
    case Del(k) => WithoutMembers(p.ready, k);
    case _ =>
  }

  function ApplyAll(p: Poll, ops: seq<Op>): Poll
    decreases |ops|
  {
    if ops == [] then p else ApplyAll(Apply(p, ops[0]), ops[1..])
  }

  lemma {:induction false} RunsKeepOk(p: Poll, ops: seq<Op>)
    requires PollOk(p)
    ensures PollOk(ApplyAll(p, ops))
    decreases |ops|
  {
    if ops != [] {
      ApplyKeepsOk(p, ops[0]);
      RunsKeepOk(Apply(p, ops[0]), ops[1..]);
    }
  }

  function Bit(b: bool): nat {
    if b then 1 else 0
  }

  /** How often the waits of a run report socket `k`, and how often it is signalled. */
  function Reports(p: Poll, ops: seq<Op>, k: int): nat
    decreases |ops|
  {
    if ops == [] then 0
    else Bit(ops[0].Wait? && k in p.ready[..Taken(p, ops[0].max)]) + Reports(Apply(p, ops[0]), ops[1..], k)
  }

  function Signals(ops: seq<Op>, k: int): nat {
    if ops == [] then 0 else Bit(ops[0].Signal? && ops[0].k == k) + Signals(ops[1..], k)
  }

  lemma ReportsStep(p: Poll, op: Op, k: int)
    requires PollOk(p)
    ensures Bit(op.Wait? && k in p.ready[..Taken(p, op.max)]) + Bit(k in Apply(p, op).ready)
      <= Bit(op.Signal? && op.k == k) + Bit(k in p.ready)
  {
    if op.Del? {
      WithoutMembers(p.ready, op.k);
    } else if op.Wait? {
      var n := Taken(p, op.max);
      assert p.ready == p.ready[..n] + p.ready[n..];
    }
  }

  /** Notification is edge-triggered: over a whole run a socket is reported at most once for
      each time it was signalled. */
  lemma {:induction false} EdgeTriggered(p: Poll, ops: seq<Op>, k: int)
    requires PollOk(p)
    ensures Reports(p, ops, k) + Bit(k in ApplyAll(p, ops).ready) <= Signals(ops, k) + Bit(k in p.ready)
    decreases |ops|
  {
    if ops != [] {
      ReportsStep(p, ops[0], k);
      ApplyKeepsOk(p, ops[0]);
      EdgeTriggered(Apply(p, ops[0]), ops[1..], k);
    }
  }

  /** A wait with room for all empties the ready list and reports every ready socket's event,
      the one signalled last first; what it reports is gone from the list. */
  lemma WaitTakesHead(p: Poll, max: nat)
    requires PollOk(p)
    ensures var n := Taken(p, max);
      && |Reported(p, n)| == n && n <= max
      && (forall i :: 0 <= i < n ==>
           Reported(p, n)[i] == p.table[ReadyAt(p, i)] && p.ready[i] !in Drained(p, max).ready)
      && (|p.ready| <= max ==> Drained(p, max).ready == [])
  {
  }

  // ----- what each call does, socket by socket

  /** Every socket but `k` is registered, or not, as before, with the same event. */
  ghost predicate SameBut(p: Poll, p': Poll, k: int) {
    forall x :: x != k ==> (x in p'.table <==> x in p.table) && (x in p.table ==> p'.table[x] == p.table[x])
  }

  /** ADD registers a new socket with its event, not ready, and refuses one that is registered. */
  lemma AddEffect(p: Poll, k: int, e: Event)
    ensures var p' := Apply(p, Add(k, e));
      if k in p.table then p' == p
      else SameBut(p, p', k) && k in p'.table && p'.table[k] == e && p'.ready == p.ready
  {
  }

  /** DEL takes the socket out of the table, and off the ready list wherever it stands there. */
  lemma {:induction false} DelEffect(p: Poll, k: int) returns (before: seq<int>, after: seq<int>)
    requires PollOk(p)
    ensures var p' := Apply(p, Del(k));
      && SameBut(p, p', k) && k !in p'.table && k !in before && k !in after
      && p'.ready == before + after && p.ready == before + (if k in p.ready then [k] else []) + after
    decreases |p.ready|
  {
    if k !in p.ready {
      before, after := p.ready, [];
    } else if p.ready[0] == k {
      before, after := [], p.ready[1..];
    } else {
      var rest := Poll(p.table, p.ready[1..]);
      before, after := DelEffect(rest, k);
      before := [p.ready[0]] + before;
      assert p.ready == [p.ready[0]] + rest.ready;
    }
  }

  /** MOD sets the mask, with errors (8) and hang-ups (16), and keeps the data. */
  lemma ModEffect(p: Poll, k: int, mask: bv32)
    ensures var p' := Apply(p, Mod(k, mask));
      if k !in p.table then p' == p
      else
        && SameBut(p, p', k) && k in p'.table && p'.ready == p.ready
        && p'.table[k].events == mask | 8 | 16 && p'.table[k].data == p.table[k].data
  {
  }

  /** A signal puts a registered socket at the head of the ready list; one that is there already
      gets the new events in addition. */
  lemma SignalEffect(p: Poll, k: int, mask: bv32)
    ensures var p' := Apply(p, Signal(k, mask));
      if k !in p.table then p' == p
      else
        && SameBut(p, p', k) && k in p'.table && p'.table[k].data == p.table[k].data
        && p'.ready == (if k in p.ready then p.ready else [k] + p.ready)
        && p'.table[k].events == if k in p.ready then p.table[k].events | mask else p.table[k].events
  {
  }

  /** A wait reports min(max, ready) sockets from the head of the list, and only these leave it. */
  lemma WaitEffect(p: Poll, max: nat)
    requires PollOk(p)
    ensures var p', n := Apply(p, Wait(max)), Min(max, |p.ready|);
      && p'.table == p.table && p.ready[..n] + p'.ready == p.ready
      && n == Taken(p, max) && |Reported(p, n)| == n
      && forall i :: 0 <= i < n ==> p.ready[i] in p.table && Reported(p, n)[i] == p.table[p.ready[i]]
  {
  }

  /** A socket that is ready stays ready until it is reported or removed. */
  lemma StaysReady(p: Poll, op: Op, k: int)
    requires PollOk(p) && (k in p.ready || (op.Signal? && op.k == k && k in p.table))
    ensures k in Apply(p, op).ready || op == Del(k) || (op.Wait? && k in p.ready[..Min(op.max, |p.ready|)])
  {
    if op.Del? {
      WithoutMembers(p.ready, op.k);
    } else if op.Wait? {
      WaitEffect(p, op.max);
    }
  }

  // ----- the poll in memory

  /** The fields of an item that the poll, and not the tree, is about. */
  datatype Fact = Fact(ready: bool, event: Event)

  ghost function Facts(items: set<Item>): (f: map<Item, Fact>)
    reads items`ready, items`events, items`data
    ensures f.Keys == items
    decreases |items|
  {
    if items == {} then map[] else
      var x :| x in items;
      Facts(items - {x})[x := Fact(x.ready, Event(x.events, x.data))]
  }

  lemma {:induction false} FactsAt(items: set<Item>, x: Item)
    requires x in items
    ensures Facts(items)[x] == Fact(x.ready, Event(x.events, x.data))
    decreases |items|
  {
    var y :| y in items && Facts(items) == Facts(items - {y})[y := Fact(y.ready, Event(y.events, y.data))];
    if x != y {
      FactsAt(items - {y}, x);
    }
  }

  ghost predicate Tells(items: set<Item>, f: map<Item, Fact>)
    reads items`ready, items`events, items`data
  {
    f.Keys == items && forall x :: x in items ==> f[x] == Fact(x.ready, Event(x.events, x.data))
  }

  lemma FactsTell(items: set<Item>, f: map<Item, Fact>)
    ensures Tells(items, f) <==> f == Facts(items)
  {
    forall x | x in items ensures Facts(items)[x] == Fact(x.ready, Event(x.events, x.data)) {
      FactsAt(items, x);
    }
  }

  lemma FactsPlus(items: set<Item>, x: Item)
    ensures Facts(items + {x}) == Facts(items)[x := Fact(x.ready, Event(x.events, x.data))]
  {
    var f := Facts(items)[x := Fact(x.ready, Event(x.events, x.data))];
    forall y | y in items + {x} ensures Facts(items + {x})[y] == f[y] {
      FactsAt(items + {x}, y);
      if y != x {
        FactsAt(items, y);
      }
    }
  }

  lemma FactsMinus(items: set<Item>, x: Item)
    ensures Facts(items - {x}) == Facts(items) - {x}
  {
    forall y | y in items - {x} ensures Facts(items - {x})[y] == Facts(items)[y] {
      FactsAt(items - {x}, y);
      FactsAt(items, y);
    }
  }

  ghost function Sockets(items: set<Item>): set<int> {
    set x | x in items :: x.sockId
  }

  ghost function SocketSeq(list: seq<Item>): (s: seq<int>)
    ensures |s| == |list| && forall i :: 0 <= i < |list| ==> s[i] == list[i].sockId
  {
    seq(|list|, i requires 0 <= i < |list| => list[i].sockId)
  }

  ghost predicate OneEach(items: set<Item>) {
    forall x, y :: x in items && y in items && x != y ==> x.sockId != y.sockId
  }

  /** The ready list and the table say what the items say. */
  ghost predicate Matches(f: map<Item, Fact>, list: seq<Item>, table: map<int, Event>) {
    && NoDup(list)
    && (forall x :: x in list ==> x in f)
    && (forall x :: x in f ==> (f[x].ready <==> x in list))
    && (forall x :: x in f ==> x.sockId in table && table[x.sockId] == f[x].event)
    && table.Keys == Sockets(f.Keys) && OneEach(f.Keys)
  }

  lemma MatchesNothing()
    ensures Matches(Facts({}), [], map[])
  {
    assert Facts({}).Keys == {};
  }

  lemma MatchesAdd(f: map<Item, Fact>, list: seq<Item>, table: map<int, Event>, x: Item, e: Event)
    requires Matches(f, list, table) && x.sockId !in table
    ensures Matches(f[x := Fact(false, e)], list, table[x.sockId := e])
  {
    assert f[x := Fact(false, e)].Keys == f.Keys + {x};
  }

  /** XY_EPOLL_CTL_ADD as it is written keeps whatever malloc left in the ready flag. */
  lemma AddedAsWrittenIff(f: map<Item, Fact>, list: seq<Item>, table: map<int, Event>, x: Item, e: Event, ready: bool)
    requires Matches(f, list, table) && x.sockId !in table
    ensures Matches(f[x := Fact(ready, e)], list, table[x.sockId := e]) <==> !ready
  {
    var f' := f[x := Fact(ready, e)];
    assert x !in f && x !in list;
    MatchesAdd(f, list, table, x, e);
    assert f'[x].ready == ready;
  }

  lemma SocketsDel(items: set<Item>, x: Item)
    requires OneEach(items) && x in items
    ensures Sockets(items - {x}) == Sockets(items) - {x.sockId}
  {
  }

  lemma MatchesDel(f: map<Item, Fact>, list: seq<Item>, table: map<int, Event>, x: Item)
    requires Matches(f, list, table) && x in f
    ensures Matches(f - {x}, Without(list, x), table - {x.sockId})
  {
    WithoutMembers(list, x);
    SocketsDel(f.Keys, x);
    assert (f - {x}).Keys == f.Keys - {x};
  }

  lemma MatchesEvent(f: map<Item, Fact>, list: seq<Item>, table: map<int, Event>, x: Item, e: Event)
    requires Matches(f, list, table) && x in f
    ensures Matches(f[x := f[x].(event := e)], list, table[x.sockId := e])
  {
    assert f[x := f[x].(event := e)].Keys == f.Keys;
  }

  lemma MatchesReady(f: map<Item, Fact>, list: seq<Item>, table: map<int, Event>, x: Item)
    requires Matches(f, list, table) && x in f && !f[x].ready
    ensures Matches(f[x := f[x].(ready := true)], [x] + list, table)
  {
    assert f[x := f[x].(ready := true)].Keys == f.Keys;
  }

  lemma MatchesTake(f: map<Item, Fact>, list: seq<Item>, table: map<int, Event>)
    requires Matches(f, list, table) && list != []
    ensures list[0] in f && Matches(f[list[0] := f[list[0]].(ready := false)], list[1..], table)
  {
    var x := list[0];
    assert x in f && f[x := f[x].(ready := false)].Keys == f.Keys;
  }

  lemma SocketSeqCons(x: Item, list: seq<Item>)
    ensures SocketSeq([x] + list) == [x.sockId] + SocketSeq(list)
  {
  }

  /** An item is on the ready list exactly when its socket is. */
  lemma ListedIff(f: map<Item, Fact>, list: seq<Item>, table: map<int, Event>, x: Item)
    requires Matches(f, list, table) && x in f
    ensures f[x].ready <==> x.sockId in SocketSeq(list)
  {
    forall i | 0 <= i < |list| ensures list[i] in f && SocketSeq(list)[i] == list[i].sockId {
      assert list[i] in list;
    }
    assert x in list ==> exists i :: 0 <= i < |list| && list[i] == x && SocketSeq(list)[i] == x.sockId;
  }

  lemma {:induction false} SocketsWithout(list: seq<Item>, x: Item)
    requires forall y :: y in list && y != x ==> y.sockId != x.sockId
    ensures SocketSeq(Without(list, x)) == Without(SocketSeq(list), x.sockId)
  {
    if list != [] {
      assert list[0] in list && SocketSeq(list)[1..] == SocketSeq(list[1..]);
      SocketsWithout(list[1..], x);
    }
  }

  class EventPoll {
    const tree: RbTree.RbTree
    var rbNum: int
    var readyList: seq<Item>
    var readyNum: int
    ghost var table: map<int, Event>

    ghost predicate Valid()
      reads this, tree, tree.items
    {
      && tree.Valid() && rbNum == |table| && readyNum == |readyList|
      && Matches(Facts(tree.items), readyList, table)
    }

    ghost function View(): Poll
      reads this
    {
      Poll(table, SocketSeq(readyList))
    }

    /** The fields that xy_syn_epoll_create sets */
    constructor ()
      ensures Valid() && View() == Poll(map[], []) && fresh(tree) && tree.items == {}
    {
      hide RbTree.RbTree.Valid, Matches, Facts;
      tree := new RbTree.RbTree();
      rbNum, readyList, readyNum, table := 0, [], 0, map[];
      new;
      MatchesNothing();
    }

    /** RB_FIND finds a socket exactly when it is registered. */
    method FindItem(sock: int) returns (epi: Item?)
      requires Valid()
      ensures epi != null <==> sock in table
      ensures if epi != null then epi in tree.items && epi.sockId == sock
        else forall x :: x in tree.items ==> x.sockId != sock
    {
      hide RbTree.RbTree.Valid;
      var found, _ := tree.Find(sock);
      epi := found;
      assert epi != null ==> epi in Facts(tree.items);
    }

    /** A new item goes into the tree: RB_INSERT with the assertion after it. */
    method Register(sock: int, event: Event) returns (elm: Item)
      requires tree.Valid() && forall x :: x in tree.items ==> x.sockId != sock
      modifies tree, tree.items`left, tree.items`right, tree.items`parent, tree.items`color
      ensures tree.Valid() && fresh(elm) && elm.sockId == sock && tree.items == old(tree.items) + {elm}
      ensures Facts(tree.items) == old(Facts(tree.items))[elm := Fact(false, event)]
    {
      hide RbTree.RbTree.Valid, Facts;
      elm := new Item(sock, event.events, event.data);
      var r, _ := tree.Insert(elm);
      assert r == null;
      FactsPlus(old(tree.items), elm);
    }

    /** What XY_EPOLL_CTL_ADD does for a socket it has not found. */
    method Enrol(sock: int, event: Event)
      requires Valid() && sock !in table && forall x :: x in tree.items ==> x.sockId != sock
      modifies this`rbNum, this`table, tree, tree.items
      ensures Valid() && fresh(tree.items - old(tree.items)) && table == old(table)[sock := event]
    {
      hide RbTree.RbTree.Valid, Matches, Facts;
      ghost var f, before := Facts(tree.items), table;
      rbNum, table := rbNum + 1, table[sock := event];
      assert Facts(tree.items) == f;
      var elm := Register(sock, event);
      MatchesAdd(f, readyList, before, elm, event);
    }

    /** XY_EPOLL_CTL_ADD */
    method CtlAdd(sock: int, event: Event) returns (ret: int)
      requires Valid()
      modifies this`rbNum, this`table, tree, tree.items
      ensures Valid() && fresh(tree.items - old(tree.items))
      ensures ret == if sock in old(table) then -1 else 0
      ensures View() == Added(old(View()), sock, event)
    {
      hide EventPoll.Valid, SocketSeq;
      var epi := FindItem(sock);
      if epi != null {
        return -1;
      }
      Enrol(sock, event);
      return 0;
    }

    method SetReady(x: Item, b: bool, ghost items: set<Item>)
      requires x in items
      modifies x`ready
      ensures x.ready == b
      ensures Facts(items) == old(Facts(items))[x := old(Facts(items)[x]).(ready := b)]
    {
      hide Facts;
      ghost var f := Facts(items);
      FactsTell(items, f);
      x.ready := b;
      FactsTell(items, f[x := f[x].(ready := b)]);
    }

    method SetEvents(x: Item, events: bv32, ghost items: set<Item>)
      requires x in items
      modifies x`events
      ensures x.events == events
      ensures Facts(items) == old(Facts(items))[x := old(Facts(items)[x]).(event := Event(events, x.data))]
    {
      hide Facts;
      ghost var f := Facts(items);
      FactsTell(items, f);
      x.events := events;
      FactsTell(items, f[x := f[x].(event := Event(events, x.data))]);
    }

    lemma ItemFact(x: Item)
      requires Valid() && x in tree.items
      ensures x.sockId in table && table[x.sockId] == Event(x.events, x.data)
      ensures x.ready <==> x.sockId in SocketSeq(readyList)
      ensures x.ready == Facts(tree.items)[x].ready
    {
      FactsAt(tree.items, x);
      ListedIff(Facts(tree.items), readyList, table, x);
    }

    /** The event mask of a registered item changes, on the item and in the table. */
    method Remask(epi: Item, events: bv32)
      requires Valid() && epi in tree.items
      modifies this`table, epi`events
      ensures Valid() && table == old(table)[epi.sockId := Event(events, epi.data)]
    {
      hide RbTree.RbTree.Valid, Matches, Facts;
      ItemFact(epi);
      MatchesEvent(Facts(tree.items), readyList, table, epi, Event(events, epi.data));
      table := table[epi.sockId := Event(events, epi.data)];
      SetEvents(epi, events, tree.items);
    }

    /** XY_EPOLL_CTL_MOD */
    method CtlMod(sock: int, event: Event) returns (ret: int)
      requires Valid()
      modifies this`table, tree.items`events
      ensures Valid() && ret == if sock in old(table) then 0 else -1
      ensures View() == Modified(old(View()), sock, event.events)
    {
      hide EventPoll.Valid, SocketSeq;
      var epi := FindItem(sock);
      if epi == null {
        return -1;
      }
      ItemFact(epi);
      Remask(epi, event.events | EPOLLERR | EPOLLHUP);
      return 0;
    }

    /** An item that is not ready goes to the head of the ready list. */
    method MarkReady(epi: Item)
      requires Valid() && epi in tree.items && !epi.ready
      modifies this`readyList, this`readyNum, epi`ready
      ensures Valid() && SocketSeq(readyList) == [epi.sockId] + SocketSeq(old(readyList))
    {
      hide RbTree.RbTree.Valid, Matches, Facts, SocketSeq;
      ItemFact(epi);
      MatchesReady(Facts(tree.items), readyList, table, epi);
      SocketSeqCons(epi, readyList);
      readyList, readyNum := [epi] + readyList, readyNum + 1;
      SetReady(epi, true, tree.items);
    }

    /** What epoll_event_callback does with the item it found. */
    method Raise(epi: Item, event: bv32) returns (ret: int)
      requires Valid() && epi in tree.items && epi.sockId in table
      modifies this`table, this`readyList, this`readyNum, tree.items`events, tree.items`ready
      ensures Valid() && View() == Signaled(old(View()), epi.sockId, event)
      ensures ret == if epi.sockId in old(View()).ready then 1 else 0
    {
      hide EventPoll.Valid, SocketSeq;
      ItemFact(epi);
      if epi.ready {
        Remask(epi, epi.events | event);
        return 1;
      }
      MarkReady(epi);
      return 0;
    }

    /** epoll_event_callback; None is its failing assertion that the socket is registered. */
    method Callback(sock: int, event: bv32) returns (ret: Option<int>)
      requires Valid()
      modifies this`table, this`readyList, this`readyNum, tree.items`events, tree.items`ready
      ensures Valid() && View() == Apply(old(View()), Signal(sock, event))
      ensures ret == if sock !in old(table) then None else Some(if sock in old(View()).ready then 1 else 0)
    {
      hide EventPoll.Valid, SocketSeq, Signaled;
      var epi := FindItem(sock);
      if epi == null {
        return None;
      }
      var r := Raise(epi, event);
      return Some(r);
    }

    /** The ready part of XY_EPOLL_CTL_DEL: the item leaves the ready list. */
    method Unlink(epi: Item, ghost f: map<Item, Fact>)
      requires tree.Valid() && epi in tree.items && readyNum == |readyList|
      requires f == Facts(tree.items) && (epi.ready <==> epi in readyList)
      modifies this`readyList, this`readyNum, epi`ready
      ensures tree.Valid() && readyNum == |readyList|
      ensures readyList == Without(old(readyList), epi)
      ensures Facts(tree.items - {epi}) == f - {epi}
    {
      hide RbTree.RbTree.Valid, Facts;
      FactsMinus(tree.items, epi);
      if epi.ready {
        readyList := Without(readyList, epi);
        readyNum := readyNum - 1;
        epi.ready := false;
      }
    }

    lemma ReadyListed(x: Item)
      requires Valid() && x in tree.items
      ensures x.ready <==> x in readyList
    {
      FactsAt(tree.items, x);
    }

    method Unregister(epi: Item)
      requires tree.Valid() && epi in tree.items
      modifies tree, tree.items`left, tree.items`right, tree.items`parent, tree.items`color
      ensures tree.Valid() && tree.items == old(tree.items) - {epi}
      ensures Facts(tree.items) == old(Facts(tree.items - {epi}))
    {
      hide RbTree.RbTree.Valid, Facts;
      var _ := tree.Remove(epi);
    }

    /** What XY_EPOLL_CTL_DEL does with the item it found. */
    method Drop(epi: Item)
      requires Valid() && epi in tree.items
      modifies this, tree, tree.items
      ensures Valid() && tree.items == old(tree.items) - {epi}
      ensures table == old(table) - {epi.sockId} && readyList == Without(old(readyList), epi)
    {
      hide RbTree.RbTree.Valid, Matches, Facts, Without;
      ghost var f := Facts(tree.items);
      ItemFact(epi);
      ReadyListed(epi);
      MatchesDel(f, readyList, table, epi);
      rbNum, table := rbNum - 1, table - {epi.sockId};
      Unlink(epi, f);
      Unregister(epi);
      assert Facts(tree.items) == f - {epi};
    }

    /** XY_EPOLL_CTL_DEL */
    method CtlDel(sock: int) returns (ret: int)
      requires Valid()
      modifies this, tree, tree.items
      ensures Valid() && tree.items <= old(tree.items)
      ensures ret == if sock in old(table) then 0 else -1
      ensures View() == Deleted(old(View()), sock)
    {
      hide EventPoll.Valid, SocketSeq;
      var epi := FindItem(sock);
      if epi == null {
        NotListed(sock);
        return -1;
      }
      OneSocket(epi);
      SocketsWithout(readyList, epi);
      Drop(epi);
      return 0;
    }

    lemma OneSocket(x: Item)
      requires Valid() && x in tree.items
      ensures forall y :: y in readyList && y != x ==> y.sockId != x.sockId
    {
      forall y | y in readyList && y != x ensures y.sockId != x.sockId {
        assert y in Facts(tree.items) && x in Facts(tree.items);
      }
    }

    /** Only registered sockets are on the ready list. */
    lemma NotListed(sock: int)
      requires Valid() && sock !in table
      ensures sock !in SocketSeq(readyList)
    {
      forall i | 0 <= i < |readyList| ensures SocketSeq(readyList)[i] in table {
        assert readyList[i] in readyList;
      }
    }

    /** The abstract state is well-formed, and the counters count. */
    lemma ViewOk()
      requires Valid()
      ensures PollOk(View()) && rbNum == |View().table| && readyNum == |View().ready|
    {
      var list, s := readyList, SocketSeq(readyList);
      forall i | 0 <= i < |list| ensures s[i] in table && list[i] in Facts(tree.items) {
        assert list[i] in list;
      }
    }

    /** The part of xy_epoll_wait after the wait itself. */
    method Drain(maxEvents: int) returns (ret: int, events: seq<Event>)
      requires Valid()
      modifies this`readyList, this`readyNum, tree.items`ready
      ensures Valid()
      ensures maxEvents <= 0 ==> ret == -1 && events == [] && View() == old(View())
      ensures maxEvents > 0 ==> ret == Taken(old(View()), maxEvents) && View() == Drained(old(View()), maxEvents)
      ensures maxEvents > 0 ==> PollOk(old(View())) && events == Reported(old(View()), ret)
    {
      hide RbTree.RbTree.Valid, Matches, Facts, SocketSeq;
      ViewOk();
      events := [];
      if maxEvents <= 0 {
        return -1, events;
      }
      ghost var v := View();
      var num := if readyNum > maxEvents then maxEvents else readyNum;
      ret := 0;
      while num != 0 && readyList != []
        invariant Valid() && table == v.table && ret + num == Taken(v, maxEvents) && 0 <= num
        invariant SocketSeq(readyList) == v.ready[ret..] && events == Reported(v, ret)
      {
        var e := TakeHead(v, ret);
        events := events + [e];
        num := num - 1;
        ret := ret + 1;
      }
    }

    /** One turn of the draining loop. */
    method TakeHead(ghost v: Poll, ghost n: nat) returns (e: Event)
      requires Valid() && readyList != [] && PollOk(v) && v.table == table
      requires n < |v.ready| && SocketSeq(readyList) == v.ready[n..]
      modifies this`readyList, this`readyNum, tree.items`ready
      ensures Valid() && SocketSeq(readyList) == v.ready[n + 1..]
      ensures Reported(v, n) + [e] == Reported(v, n + 1)
    {
      hide RbTree.RbTree.Valid, Matches, Facts;
      MatchesTake(Facts(tree.items), readyList, table);
      assert readyList[0].sockId == v.ready[n];
      var epi := readyList[0];
      ItemFact(epi);
      readyList := readyList[1..];
      SetReady(epi, false, tree.items);
      e := Event(epi.events, epi.data);
      readyNum := readyNum - 1;
      assert SocketSeq(readyList) == v.ready[n + 1..];
    }

    /** epoll_destroy; the counters are not touched, the poll being freed next. */
    method Destroy()
      requires Valid()
      modifies this`readyList, tree, tree.items
      ensures readyList == [] && tree.items == {} && tree.Valid()
    {
      hide RbTree.RbTree.Valid, Matches, Facts, Inorder;
      while readyList != []
        invariant tree.Valid() && tree.items == old(tree.items)
      {
        readyList := readyList[1..];
      }
      while true
        invariant readyList == [] && tree.Valid() && tree.items <= old(tree.items)
        decreases |tree.items|
      {
        var epi := tree.MinMax(-1);
        MinIsItem(epi);
        if epi == null {
          break;
        }
        epi := tree.Remove(epi);
      }
    }

    lemma MinIsItem(epi: Item?)
      requires tree.Valid()
      requires epi == if Inorder(tree.tree) == [] then null else Inorder(tree.tree)[0]
      ensures epi == null ==> tree.items == {}
      ensures epi != null ==> epi in tree.items
    {
      assert RbHeap.Snapshot(tree.items).Keys == Elems(tree.tree);
      if epi != null {
        assert epi in Inorder(tree.tree);
        ElemsInorder(tree.tree, epi);
      } else {
        assert tree.tree.Leaf?;
      }
    }
  }
}
