/** The socket table of network/src/xy_manage.cc and its list of free entries. */
module SocketMap {
  import opened Common
  import opened XyList

  /** XY_MAX_TCP */
  const MAX: nat := 0x1_0000

  datatype Kind = Unused | Tcp | Epoll

  /** A table entry: its type and its two pointers, a poll and a socket being known by their ids. */
  datatype Slot = Slot(kind: Kind, poll: Option<nat>, sock: Option<nat>)

  const FREE := Slot(Unused, None, None)

  /** Only the pointer that goes with the type is set. */
  function Filled(kind: Kind, id: nat): Slot {
    match kind
    case Unused => FREE
    case Tcp => Slot(Tcp, None, Some(id))
    case Epoll => Slot(Epoll, Some(id), None)
  }

  // ----- the free list as a queue of ids

  datatype Ids = Ids(free: seq<nat>, live: set<nat>)

  /** Every id is free, once, or live. */
  ghost predicate IdsOk(s: Ids) {
    && (forall i, j :: 0 <= i < j < |s.free| ==> s.free[i] != s.free[j])
    && (forall k :: k in s.free ==> k < MAX && k !in s.live)
    && (forall k :: k in s.live ==> k < MAX)
    && |s.free| + |s.live| == MAX
  }

  function Allocated(s: Ids): Ids {
    if s.free == [] then s else Ids(s.free[1..], s.live + {s.free[0]})
  }

  function Deallocated(s: Ids, id: nat): Ids {
    Ids(s.free + [id], s.live - {id})
  }

  lemma AllocateKeeps(s: Ids)
    requires IdsOk(s)
    ensures IdsOk(Allocated(s))
  {
    if s.free != [] {
      var x, rest := s.free[0], s.free[1..];
      assert s.free == [x] + rest && x in s.free && x !in rest;
      assert forall k :: k in rest ==> k in s.free;
      assert forall i :: 0 <= i < |rest| ==> rest[i] == s.free[i + 1];
    }
  }

  lemma DeallocateKeeps(s: Ids, id: nat)
    requires IdsOk(s) && id in s.live
    ensures IdsOk(Deallocated(s, id))
  {
  }

  datatype Op = Allocate | Deallocate(id: nat)

  /** A run of allocations, successful or not, and of deallocations of live ids. */
  ghost predicate CanRun(s: Ids, ops: seq<Op>)
    decreases |ops|
  {
    ops == [] || ((ops[0].Deallocate? ==> ops[0].id in s.live) && CanRun(Apply(s, ops[0]), ops[1..]))
  }

  function Apply(s: Ids, op: Op): Ids {
    match op
    case Allocate => Allocated(s)
    case Deallocate(id) => Deallocated(s, id)
  }

  function ApplyAll(s: Ids, ops: seq<Op>): Ids
    decreases |ops|
  {
    if ops == [] then s else ApplyAll(Apply(s, ops[0]), ops[1..])
  }

  lemma {:induction false} RunsKeepIds(s: Ids, ops: seq<Op>)
    requires IdsOk(s) && CanRun(s, ops)
    ensures IdsOk(ApplyAll(s, ops))
    decreases |ops|
  {
    if ops != [] {
      if ops[0].Allocate? {
        AllocateKeeps(s);
      } else {
        DeallocateKeeps(s, ops[0].id);
      }
      RunsKeepIds(Apply(s, ops[0]), ops[1..]);
    }
  }

  function Allocations(ops: seq<Op>): nat {
    if ops == [] then 0 else (if ops[0].Allocate? then 1 else 0) + Allocations(ops[1..])
  }

  /** An id at place `k` of the free list is not handed out again before `k` others were. */
  lemma {:induction false} ReusedLast(s: Ids, ops: seq<Op>, k: nat)
    requires IdsOk(s) && CanRun(s, ops) && k < |s.free| && Allocations(ops) <= k
    ensures var s' := ApplyAll(s, ops); var j := k - Allocations(ops);
      j < |s'.free| && s'.free[j] == s.free[k]
    decreases |ops|
  {
    if ops != [] {
      if ops[0].Allocate? {
        AllocateKeeps(s);
        ReusedLast(Allocated(s), ops[1..], k - 1);
      } else {
        DeallocateKeeps(s, ops[0].id);
        ReusedLast(Deallocated(s, ops[0].id), ops[1..], k);
      }
    }
  }

  // ----- the table in memory

  ghost function Owners(list: seq<Node>): (s: seq<nat>)
    ensures |s| == |list| && forall i :: 0 <= i < |list| ==> s[i] == list[i].owner
  {
    seq(|list|, i requires 0 <= i < |list| => list[i].owner)
  }

  /** The list nodes inside the entries of the static table. */
  method NewNodes() returns (nodes: seq<Node>)
    ensures |nodes| == MAX && fresh(nodes)
    ensures forall i :: 0 <= i < MAX ==> nodes[i].owner == i
  {
    nodes := [];
    for i := 0 to MAX
      invariant |nodes| == i && fresh(nodes)
      invariant forall k :: 0 <= k < i ==> nodes[k].owner == k
    {
      var n := new Node(i);
      nodes := nodes + [n];
    }
  }

  class SocketTable {
    const head: Node
    const nodes: seq<Node>
    const table: array<Slot>
    ghost var free: seq<Node>
    ghost var live: set<nat>

    /** The entries know their places. */
    ghost predicate Laid() {
      && |nodes| == MAX && table.Length == MAX && head !in nodes
      && (forall i :: 0 <= i < MAX ==> nodes[i].owner == i)
    }

    /** A table entry is on the free list exactly when it is unused; otherwise it is live. */
    ghost predicate SlotsOk(slots: seq<Slot>, free: seq<Node>, live: set<nat>) {
      && Laid() && |slots| == MAX
      && (forall i :: 0 <= i < |free| ==> free[i].owner < MAX && free[i] == nodes[free[i].owner])
      && (forall i :: 0 <= i < MAX ==> (slots[i].kind.Unused? <==> nodes[i] in free))
      && (forall i :: i in live <==> 0 <= i < MAX && !slots[i].kind.Unused?)
      && (forall i :: 0 <= i < MAX ==> slots[i] == Filled(slots[i].kind, i))
      && |free| + |live| == MAX
    }

    ghost predicate Valid()
      reads this, head, table, free
    {
      Laid() && IsList(head, free) && SlotsOk(table[..], free, live)
    }

    ghost function View(): Ids
      reads this
    {
      Ids(Owners(free), live)
    }

    /** xy_socket_map_init */
    constructor ()
      ensures Valid() && fresh(head) && fresh(nodes) && fresh(table)
      ensures View() == Ids(seq(MAX, i => i), {})
    {
      hide XyList.Ring, Owners, SocketTable.Valid;
      head := new Node(0);
      var ns := NewNodes();
      nodes, free, live := ns, ns, {};
      table := new Slot[MAX](_ => FREE);
      new;
      Init(head);
      for i := 0 to MAX
        invariant IsList(head, nodes[..i]) && free == nodes && live == {}
        invariant forall k :: 0 <= k < MAX ==> table[k] == FREE
      {
        table[i] := FREE;
        AddTail(head, nodes[i], nodes[..i]);
        assert nodes[..i] + [nodes[i]] == nodes[..i + 1];
      }
      assert nodes[..MAX] == nodes;
      AllFree();
    }

    lemma AllFree()
      requires Laid() && IsList(head, nodes) && free == nodes && live == {}
      requires forall k :: 0 <= k < MAX ==> table[k] == FREE
      ensures Valid() && View() == Ids(seq(MAX, i => i), {})
    {
      hide XyList.Ring;
      assert Owners(nodes) == seq(MAX, i => i);
      forall i | 0 <= i < MAX ensures nodes[i] in free && free[i].owner == i {
      }
    }

    lemma TakenSlots(slots: seq<Slot>, free: seq<Node>, live: set<nat>, kind: Kind)
      requires SlotsOk(slots, free, live) && free != [] && free[0] !in free[1..] && !kind.Unused?
      ensures var i := free[0].owner;
        && i < MAX && slots[i] == FREE
        && SlotsOk(slots[i := Filled(kind, i)], free[1..], live + {i})
      ensures Owners(free[1..]) == Owners(free)[1..]
    {
      var i := free[0].owner;
      assert nodes[i] in free && i !in live;
      assert free == [free[0]] + free[1..];
    }

    lemma FreedSlots(slots: seq<Slot>, free: seq<Node>, live: set<nat>, id: nat)
      requires SlotsOk(slots, free, live) && id in live
      ensures id < MAX && nodes[id] !in free
      ensures SlotsOk(slots[id := FREE], free + [nodes[id]], live - {id})
      ensures Owners(free + [nodes[id]]) == Owners(free) + [id]
    {
      assert forall i :: 0 <= i < MAX && i != id ==> nodes[i] != nodes[id];
    }

    lemma FreeNodes(slots: seq<Slot>, free: seq<Node>, live: set<nat>)
      requires SlotsOk(slots, free, live)
      ensures forall i :: 0 <= i < |free| ==> free[i] in nodes
      ensures forall i :: 0 <= i < MAX ==> nodes[i] != head
    {
    }

    /** xy_allocate_tcp_socket, and xy_allocate_event_poll when `poll` */
    method Allocate(poll: bool) returns (id: Option<nat>)
      requires Valid()
      modifies this`free, this`live, table, head, nodes
      ensures Valid() && View() == Allocated(old(View()))
      ensures old(free) != [] ==>
        View().free == old(View()).free[1..] && live == old(live) + {old(View()).free[0]}
      ensures id == if old(free) == [] then None else Some(old(View()).free[0])
      ensures id.Some? ==> table[..] == old(table[..])[id.value := Filled(if poll then Epoll else Tcp, id.value)]
      ensures id.None? ==> table[..] == old(table[..])
    {
      hide SocketTable.SlotsOk, IsList;
      var empty := IsEmpty(head, free);
      if empty {
        return None;
      }
      HeadOnce();
      FreeNodes(table[..], free, live);
      TakenSlots(table[..], free, live, if poll then Epoll else Tcp);
      var node := TakeHead(head, free);
      var i := node.owner;
      table[i] := if poll then table[i].(kind := Epoll, poll := Some(i)) else table[i].(kind := Tcp, sock := Some(i));
      free, live := free[1..], live + {i};
      return Some(i);
    }

    /** xy_deallocate_tcp_socket and deallocate_event_poll, of a live id */
    method Deallocate(id: nat)
      requires Valid() && id in live
      modifies this`free, this`live, table, head, nodes
      ensures Valid() && View() == Deallocated(old(View()), id)
      ensures View().free == old(View()).free + [id] && live == old(live) - {id}
      ensures table[..] == old(table[..])[id := FREE]
    {
      hide SocketTable.SlotsOk, IsList;
      FreedSlots(table[..], free, live, id);
      FreeNodes(table[..], free, live);
      table[id] := FREE;
      AddTail(head, nodes[id], free);
      free, live := free + [nodes[id]], live - {id};
    }

    /** xy_get_tcp_socket_by_id and xy_get_event_poll_by_id: an id yields itself as what it was
        allocated for and NULL as the other.  So epoll_event_callback, which looks the poll up by
        the id of a TCP socket (xy_epoll.cc:181), does not find one. */
    method GetById(id: nat) returns (sock: Option<nat>, poll: Option<nat>)
      requires Valid() && id < MAX
      ensures sock == if table[id].kind == Tcp then Some(id) else None
      ensures poll == if table[id].kind == Epoll then Some(id) else None
      ensures id in live <==> sock.Some? || poll.Some?
      ensures sock.None? || poll.None?
    {
      return table[id].sock, table[id].poll;
    }

    lemma HeadOnce()
      requires IsList(head, free)
      ensures forall i, j :: 0 <= i < j < |free| ==> free[i] != free[j]
      ensures free != [] ==> free == [free[0]] + free[1..] && free[0] !in free[1..]
    {
      var c := [head] + free;
      assert NoDup(c);
      forall i, j | 0 <= i < j < |free| ensures free[i] != free[j] {
        assert c[i + 1] != c[j + 1];
      }
    }

    /** The abstract state is well-formed in every reachable state. */
    lemma ViewOk()
      requires Valid()
      ensures IdsOk(View())
    {
      HeadOnce();
      var s := Owners(free);
      forall i | 0 <= i < |s| ensures s[i] < MAX && s[i] !in live {
        assert nodes[free[i].owner] in free;
      }
      forall i, j | 0 <= i < j < |s| ensures s[i] != s[j] {
        assert free[i] == nodes[s[i]] && free[j] == nodes[s[j]];
      }
    }
  }
}
