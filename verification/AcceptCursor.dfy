/** The list of established sockets in queue/src/xy_syn_socks.cc and the cursor of
    established_take_next.  Both functions run under a lock, so each is one atomic step.
    Sockets are pushed at the head; the cursor walks towards it through prev. */
module AcceptCursor {
  import opened Common
  import opened XyList

  class Established {
    const head: Node
    var cur: Node
    ghost var list: seq<Node>
    ghost var established: seq<Node>
    ghost var accepted: seq<Node>

    /** `established` is the history of the list, oldest first; `accepted` what was taken. */
    ghost predicate Valid()
      reads this, head, list
    {
      && IsList(head, list)
      && |established| == |list| && (forall i :: 0 <= i < |list| ==> list[i] == established[|list| - 1 - i])
      && |accepted| <= |established| && accepted == established[..|accepted|]
      && cur == if accepted == [] then head else established[|accepted| - 1]
    }

    constructor ()
      ensures Valid() && fresh(head) && established == accepted == list == []
    {
      head := new Node(0);
      cur := head;
      list, established, accepted := [], [], [];
      new;
      Init(head);
    }

    /** established_tcp_sock_enqueue */
    method Enqueue(sock: Node)
      requires Valid() && sock != head && sock !in list
      modifies this`list, this`established, head, list, sock
      ensures Valid() && list == [sock] + old(list)
      ensures established == old(established) + [sock] && accepted == old(accepted)
    {
      AddHead(head, sock, list);
      list, established := [sock] + list, established + [sock];
    }

    /** What the cursor's prev link leads to: the next socket in order of establishment. */
    lemma CursorPrev()
      requires Valid()
      ensures cur.prev == if |accepted| == |established| then head else established[|accepted|]
    {
      var c, n := [head] + list, |list|;
      var at := if accepted == [] then 0 else n - |accepted| + 1;
      assert c[at] == cur;
      assert After(Before(at, |c|), |c|) == at && Linked(c, Before(at, |c|));
    }

    /** One look of established_take_next at the list: the next socket, or none yet (the code
        then yields and looks again). */
    method TakeNext() returns (sock: Node?)
      requires Valid()
      modifies this`cur, this`accepted
      ensures Valid() && established == old(established)
      ensures sock == null <==> |old(accepted)| == |established|
      ensures accepted == if sock == null then old(accepted) else old(accepted) + [sock]
      ensures sock != null ==> sock == established[|old(accepted)|]
    {
      CursorPrev();
      InList();
      if cur.prev != head {
        cur := cur.prev;
        accepted := accepted + [cur];
        return cur;
      }
      return null;
    }

    lemma InList()
      requires Valid()
      ensures forall i :: 0 <= i < |established| ==> established[i] != head
      ensures forall i, j :: 0 <= i < j < |established| ==> established[i] != established[j]
    {
      var c, n := [head] + list, |list|;
      assert NoDup(c);
      forall i | 0 <= i < n ensures established[i] == c[n - i] && established[i] != head {
        assert list[n - 1 - i] == established[i] && c[0] != c[n - i];
      }
      forall i, j | 0 <= i < j < n ensures established[i] != established[j] {
        assert c[n - j] != c[n - i];
      }
    }

    /** In every reachable state the accepted sockets are the first of the established ones, in
        the order of establishment, each once. */
    lemma AcceptedInOrder(i: nat, j: nat)
      requires Valid() && i < j < |accepted|
      ensures accepted[i] == established[i] && accepted[j] == established[j] && accepted[i] != accepted[j]
    {
      InList();
    }
  }
}
