/** The circular intrusive list of network/include/xy_list.h.  `owner` names the structure
    that a node is embedded in, which the code finds again by a cast. */
module XyList {
  import opened Common

  class Node {
    const owner: nat
    var next: Node?
    var prev: Node?

    constructor (owner: nat)
      ensures this.owner == owner
    {
      this.owner, next, prev := owner, null, null;
    }
  }

  function After(i: nat, n: nat): (j: nat)
    requires i < n
    ensures j < n
  {
    if i + 1 == n then 0 else i + 1
  }

  ghost predicate Linked(c: seq<Node>, i: nat)
    requires i < |c|
    reads c
  {
    c[i].next == c[After(i, |c|)] && c[After(i, |c|)].prev == c[i]
  }

  /** The nodes of `c`, in this order, are linked in a circle: next and prev are inverse. */
  ghost predicate Ring(c: seq<Node>)
    reads c
  {
    c != [] && NoDup(c) && forall i: nat :: i < |c| ==> Linked(c, i)
  }

  /** `head` is the head of a list that holds `s`. */
  ghost predicate IsList(head: Node, s: seq<Node>)
    reads head, s
  {
    Ring([head] + s)
  }

  /** xy_list_init */
  method Init(head: Node)
    modifies head
    ensures IsList(head, [])
  {
    head.prev := head;
    head.next := head;
    assert Linked([head] + [], 0);
  }

  /** xy_list_add_head */
  method AddHead(head: Node, node: Node, ghost s: seq<Node>)
    requires IsList(head, s) && node != head && node !in s
    modifies head, node, s
    ensures IsList(head, [node] + s)
  {
    ghost var c, c' := [head] + s, [head] + ([node] + s);
    assert c'[0] == head && c'[1] == node && forall k :: 2 <= k < |c'| ==> c'[k] == c[k - 1];
    assert Linked(c, 0);
    head.next.prev := node;
    node.next := head.next;
    node.prev := head;
    head.next := node;
    forall i: nat | i < |c'| ensures Linked(c', i) {
      if i >= 1 {
        assert old(Linked(c, i - 1));
      }
    }
  }

  /** xy_list_add_tail */
  method AddTail(head: Node, node: Node, ghost s: seq<Node>)
    requires IsList(head, s) && node != head && node !in s
    modifies head, node, s
    ensures IsList(head, s + [node])
  {
    ghost var c, c' := [head] + s, [head] + (s + [node]);
    assert c'[|s| + 1] == node && forall k :: 0 <= k <= |s| ==> c'[k] == c[k];
    assert Linked(c, |s|);
    head.prev.next := node;
    node.prev := head.prev;
    node.next := head;
    head.prev := node;
    forall i: nat | i < |c'| ensures Linked(c', i) {
      if i <= |s| {
        assert old(Linked(c, i));
      }
    }
  }

  function Before(i: nat, n: nat): (j: nat)
    requires i < n
    ensures j < n && After(j, n) == i
  {
    if i == 0 then n - 1 else i - 1
  }

  /** xy_list_del, of the node at place `k` of the circle; a node alone in its circle stays so. */
  method Del(elem: Node, ghost c: seq<Node>, ghost k: nat)
    requires Ring(c) && k < |c| && c[k] == elem
    modifies c
    ensures Ring(if |c| == 1 then c else c[..k] + c[k + 1..])
  {
    ghost var c' := c[..k] + c[k + 1..];
    assert forall i :: 0 <= i < |c'| ==> c'[i] == c[if i < k then i else i + 1];
    ghost var j := Before(k, |c|);
    assert Linked(c, j) && Linked(c, k);
    var prev, next := elem.prev, elem.next;
    prev.next := next;
    next.prev := prev;
    if |c| == 1 {
      assert Linked(c, 0);
    } else {
      forall i: nat | i < |c'| ensures Linked(c', i) {
        assert old(Linked(c, if i < k then i else i + 1));
        assert old(Linked(c, k));
      }
    }
  }

  lemma EndsOfList(head: Node, s: seq<Node>)
    requires IsList(head, s)
    ensures head.next == if s == [] then head else s[0]
    ensures head.prev == if s == [] then head else s[|s| - 1]
    ensures s != [] ==> head.next != head
  {
    var c := [head] + s;
    assert Linked(c, 0) && Linked(c, |s|);
    assert s != [] ==> c[0] != c[1];
  }

  lemma WithoutFirst(head: Node, s: seq<Node>)
    requires s != []
    ensures var c := [head] + s; c[1] == s[0] && c[..1] + c[2..] == [head] + s[1..]
  {
  }

  lemma WithoutLast(head: Node, s: seq<Node>)
    requires s != []
    ensures var c := [head] + s; c[|s|] == s[|s| - 1] && c[..|s|] + c[|s| + 1..] == [head] + s[..|s| - 1]
  {
  }

  /** xy_list_take_head; on an empty list it yields the head itself */
  method TakeHead(head: Node, ghost s: seq<Node>) returns (elem: Node)
    requires IsList(head, s)
    modifies head, s
    ensures s == [] ==> elem == head && IsList(head, [])
    ensures s != [] ==> elem == s[0] && IsList(head, s[1..])
  {
    hide Ring;
    ghost var c := [head] + s;
    EndsOfList(head, s);
    elem := head.next;
    if s != [] {
      WithoutFirst(head, s);
    }
    Del(elem, c, After(0, |c|));
  }

  /** xy_list_take_tail */
  method TakeTail(head: Node, ghost s: seq<Node>) returns (elem: Node)
    requires IsList(head, s)
    modifies head, s
    ensures s == [] ==> elem == head && IsList(head, [])
    ensures s != [] ==> elem == s[|s| - 1] && IsList(head, s[..|s| - 1])
  {
    hide Ring;
    ghost var c := [head] + s;
    EndsOfList(head, s);
    elem := head.prev;
    if s != [] {
      WithoutLast(head, s);
    }
    Del(elem, c, Before(0, |c|));
  }

  /** xy_list_is_empty */
  method IsEmpty(head: Node, ghost s: seq<Node>) returns (empty: bool)
    requires IsList(head, s)
    ensures empty <==> s == []
  {
    EndsOfList(head, s);
    return head.next == head;
  }
}
