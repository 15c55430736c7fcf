# A verified model of a user-space TCP stack

The repository is a TCP/IP stack that runs in user space: a network thread moves segments
between a NIC and the sockets' control blocks, and user threads reach it through queues. This
project models the parts of it that carry its correctness and proves what they are for:

- **Ordered trees** (`RbModel`, `RbFixup`, `RbHeap`, `RbTurns`, `RbOrder`, `RbEdits`, `RbTree`,
  `SplayModel`, `SplayTree`): the red-black and top-down splay macros on nodes in memory, with
  parent pointers, rotations and mirrored cases as they are written. The red-black loops are
  proved on a zipper (a focus subtree and the path to the root); the splay loop on three parts
  of the tree, two of them ending in a hole.
- **The sliding window** (`Windows`, `SlidingWindow`, `Protocol`, `ReceiveOrder`): the receive
  and send rings, the two window updates and the sending loop, and on top of them the whole
  protocol over a network that loses, duplicates and reorders. Sequence numbers count segments.
- **Concurrent queues** (`Mpmc`, `SpscRing`): the list with a lock in every node, and the
  lock-free ring, as transition systems whose steps are single loads, stores, locks and unlocks.
- **The TCP state machine** (`TcpState`): segment arrival in every state (sections 3.2 and 3.9
  of RFC 793), with the replies, the lists a socket is moved between, the handshake, and runs of
  segments, sends and user calls.
- **Containers** (`Epoll`, `ByteStream`, `XyList`, `AcceptCursor`, `SocketMap`): the event poll
  over the red-black tree, the byte stream cut into segments and read back, the circular list,
  the cursor that accepts established sockets, and the table of socket ids.

Objects whose fields the source updates are classes, and their methods are proved against
functions on values (`View()`, `SenderView()`, ...); the properties of those functions, over all
inputs and all runs, are lemmas. Interleavings are runs of a step relation.

## Where the model follows the intent of the code

A few lines of the source do not do what they are evidently for. The model does what they are
for; the lemma named beside a line, if there is one, says what the line as written would do.

- `network/include/xy_tcp_wnd_hdl.h:20-23` overwrites `snd_una` before it subtracts it, and `:26`
  assigns where its comment says equality (`SlidingWindow.AckedAsWrittenIff`).
- `network/src/xy_tcp_send.cc:26-28` sends the head of the ring again with a fresh number
  (`SlidingWindow.ResentAsWrittenIff`); `:30-33` tests neither for an empty list nor for a full ring
  (`SlidingWindow.BurstAsWrittenIff`).
- `network/include/xy_tcp_state_others.h:77-78` joins two plain comparisons with OR, where the table
  above it asks for a number in the window modulo 2^32 (`TcpState.AcceptableAsWrittenIff`);
  `:203` also queues segments without data (`SlidingWindow.EmptySegmentAsWrittenIff`).
- `queue/include/xy_mpmc.h:37` reads `tail->prev` before any lock is held; the model reads it again
  under both locks and retries (`Mpmc.AsWrittenIff` says which runs of the code are correct, and
  `Mpmc.StaleReadLosesNode` is one that is not).
- `queue/include/xy_ring.h:60-61` returns `n` unreduced (`SpscRing.CountAsWrittenIff`).
- `queue/src/xy_syn_api.cc:203-209` does not lower `len` (`ByteStream.CountAsWrittenIff`), and `:179`
  takes from the send list.
- `network/src/xy_epoll.cc:72-79` frees an item that may be on the ready list
  (`Epoll.DeletedAsWrittenIff`), and `:45-53` leaves its `ready` flag as malloc made it
  (`Epoll.AddedAsWrittenIff`); `:181` looks the poll up by the socket's own id, which has none
  (`SocketMap.SocketTable.GetById`).

The receive ring's bound `offset > XY_RCV_WND_SIZE` is kept as written. It admits one offset too
many; `ReceiveOrder.ArrivalsInOrder` shows why delivery stays correct.

## What the code, as modelled, never does

- A socket never enters SYN-SENT, FIN-WAIT-2, CLOSING, LAST-ACK or TIME-WAIT (`TcpState.StatesEnteredIff`).
- After a close or a received FIN nothing reaches the socket again, so its FIN is never sent
  (`TcpState.ClosedIsTheEnd`).
- A segment never takes a socket from CLOSING to TIME-WAIT (`TcpState.ClosingIsLeftByReset`).
- A reset never takes an established socket off its list (`TcpState.StaysAtHomeIff`,
  `TcpState.ResetStaysListed`).
- A FIN is never checked against the number expected: one that comes early makes the socket
  acknowledge what it has not received (`TcpState.FinCountedIff`, `TcpState.EarlyFin`).
- Once the numbers in flight cross the end of the sequence space, no acknowledgment is ever
  accepted again (`Protocol.WedgedForEver`); a handshake whose SYN takes the last number ends in a
  reset (`TcpState.Handshake`).

## Model

| member | source | states |
|---|---|---|
| RbModel.InorderPlug | network/include/xy_rbtree.h:334-375 | The in-order sequence of a tree is that of any focus subtree between what lies before and after it on the path, so a change at the focus that keeps its sequence keeps the whole order. |
| RbModel.BstSorted | network/include/xy_rbtree.h:539-553 | The in-order sequence of a search tree strictly increases in the key. |
| RbModel.SortedBst | network/include/xy_rbtree.h:539-553 | Conversely a tree whose in-order sequence strictly increases is a search tree. |
| RbModel.RotateLeftKeepsOrder | network/include/xy_rbtree.h:271-289 | A left rotation keeps the in-order sequence, and a right rotation undoes it. |
| RbModel.RotateRightKeepsOrder | network/include/xy_rbtree.h:291-309 | A right rotation keeps the in-order sequence, and a left rotation undoes it. |
| RbModel.ZipPlug | network/include/xy_rbtree.h:335-375 | A focus and a path that are red-black and fit together make a red-black tree: black root, no red-red edge, equal black heights. |
| RbModel.PlugZip | network/include/xy_rbtree.h:377-449 | Conversely any node of a red-black tree may be put in focus with all colour facts intact. |
| RbFixup.InsertRecolor | network/include/xy_rbtree.h:342-347 | With a red uncle, recolouring parent, uncle and grandparent moves the only possible red-red edge two levels up. |
| RbFixup.InsertInnerLeftColors | network/include/xy_rbtree.h:348-353 | Rotating an inner grandchild outwards keeps the loop's colour invariant and the in-order sequence. |
| RbFixup.InsertOuterLeftColors | network/include/xy_rbtree.h:354-355 | Recolouring and rotating over an outer grandchild removes the red-red edge and keeps black heights and order. |
| RbFixup.InsertOuterRightColors | network/include/xy_rbtree.h:370-371 | The mirrored case. |
| RbFixup.InsertDone | network/include/xy_rbtree.h:374 | When the parent is not red, blackening the root leaves a red-black tree. |
| RbFixup.SiblingExists | network/include/xy_rbtree.h:383-384 | A subtree that is one black node short has a sibling, so the code may dereference it. |
| RbFixup.RemoveRedSiblingLeftColors | network/include/xy_rbtree.h:384-388 | A red sibling is rotated over the parent: the short subtree sinks one level, under a red parent with a black sibling. |
| RbFixup.RemoveRedSiblingRightColors | network/include/xy_rbtree.h:416-420 | The mirrored case. |
| RbFixup.RemoveBlackNephewsColors | network/include/xy_rbtree.h:389-395 | With two black nephews the sibling turns red and the parent becomes the short subtree. |
| RbFixup.RemoveInnerNephewLeftColors | network/include/xy_rbtree.h:397-405 | A red inner nephew is rotated up so that the outer nephew is red, keeping the deficit where it was. |
| RbFixup.RemoveInnerNephewRightColors | network/include/xy_rbtree.h:429-437 | The mirrored case. |
| RbFixup.RemoveOuterNephewLeftColors | network/include/xy_rbtree.h:406-412 | With a red outer nephew one rotation at the parent restores the missing black node, and the whole tree is red-black. |
| RbFixup.RemoveOuterNephewRightColors | network/include/xy_rbtree.h:438-444 | The mirrored case. |
| RbFixup.RemoveDone | network/include/xy_rbtree.h:448 | Blackening the node at which the loop stopped, or stopping at the root, leaves a red-black tree. |
| RbHeap.HoldsZip | network/include/xy_rbtree.h:237-243 | Memory holds a tree exactly when it holds any focus of it with its path, parent links being inverse to child links. |
| RbHeap.RotateLeftZip | network/include/xy_rbtree.h:271-289 | The field writes of a left rotation turn the memory of a zipper into the memory of the rotated zipper, root pointer and parent links included. |
| RbHeap.RotateRightZip | network/include/xy_rbtree.h:291-309 | The same for a right rotation. |
| RbEdits.SpliceNode | network/include/xy_rbtree.h:494-504 | Linking a node's only child to its parent takes exactly that node out of the stored tree. |
| RbEdits.ReplaceNode | network/include/xy_rbtree.h:474-485 | Overwriting the successor's links and colour with those of the removed node puts it in that node's place. |
| RbOrder.SuccessorOrder | network/include/xy_rbtree.h:458-485 | Putting the in-order successor in a node's place removes exactly that node from the in-order sequence. |
| RbOrder.SuccessorColors | network/include/xy_rbtree.h:462-485 | Once the successor has the removed node's place and colour, the tree is red-black, or one black node short exactly where it was taken from. |
| RbOrder.BeforeInvertsAfter | network/include/xy_rbtree.h:574-609 | In a sorted sequence the item before the next item, and the one after the previous item, is the item itself; the next item has the least greater key. |
| RbOrder.HeightBound | network/include/xy_rbtree.h:511-571 | 2^height of a red-black tree is at most the square of its size plus one. |
| RbTree.RbTree.RotateLeft | network/include/xy_rbtree.h:271-289 | The macro's writes are exactly those of a left rotation at `elm`. |
| RbTree.RbTree.RotateRight | network/include/xy_rbtree.h:291-309 | The macro's writes are exactly those of a right rotation at `elm`. |
| RbTree.RbTree.InsertColor | network/include/xy_rbtree.h:335-375 | From a tree that is red-black but for one red-red edge at `elm`, the loop ends with a red-black tree with the same in-order sequence. |
| RbTree.RbTree.RemoveColor | network/include/xy_rbtree.h:377-449 | From a tree with one subtree a black node short, the loop terminates with a red-black tree with the same in-order sequence; the measure absorbs the red-sibling turn. |
| RbTree.RbTree.Insert | network/include/xy_rbtree.h:511-537 | Either the item with the equal key is returned and nothing changes, or NULL is returned, no equal key was there, and a valid red-black tree holds exactly the old items and `elm`; the descent takes at most height many steps. |
| RbTree.RbTree.Remove | network/include/xy_rbtree.h:451-508 | For every valid tree and every node in it, a valid red-black tree is left that holds exactly the other nodes, and the node is returned. |
| RbTree.RbTree.RemoveInner | network/include/xy_rbtree.h:458-493 | The case of two children: the successor takes the node's place, links and colour. |
| RbTree.RbTree.Find | network/include/xy_rbtree.h:540-553 | The item with the key is found, or NULL says that no item has it; at most height many steps. |
| RbTree.RbTree.NFind | network/include/xy_rbtree.h:556-571 | The least item not below the key is found, or NULL when there is none; at most height many steps. |
| RbTree.RbTree.Next | network/include/xy_rbtree.h:574-590 | The item after `elm` in the in-order sequence (`ItemAfter`), through parent pointers, or NULL after the last. |
| RbTree.RbTree.Prev | network/include/xy_rbtree.h:593-609 | The item before it (`ItemBefore`), or NULL before the first; so by `RbOrder.BeforeInvertsAfter` Prev inverts Next. |
| RbTree.RbTree.MinMax | network/include/xy_rbtree.h:611-622 | The first or the last item of the in-order sequence. |
| RbTree.RbTree.ForEach | network/include/xy_rbtree.h:636-637 | Starting at RB_MIN and iterating RB_NEXT visits every item once in strictly increasing key order. |
| RbTree.RbTree.HeightOfItems | network/include/xy_rbtree.h:511-571 | A tree of n items has height at most 2 log2(n + 1), stated as 2^height <= (n + 1)^2. |
| SplayModel.AssembledInorder | network/include/xy_rbtree.h:61-67 | Assembling the left tree, the middle tree and the right tree keeps the in-order sequence of the three. |
| SplayModel.LinkKeepsOrder | network/include/xy_rbtree.h:47-59 | SPLAY_LINKLEFT and SPLAY_LINKRIGHT move the root and one subtree to an outer tree without changing the sequence of the whole. |
| SplayModel.RotateRightStep | network/include/xy_rbtree.h:33-38 | The writes of SPLAY_ROTATE_RIGHT rotate the stored middle tree and leave the outer trees stored. |
| SplayModel.RotateLeftStep | network/include/xy_rbtree.h:40-45 | The same for SPLAY_ROTATE_LEFT. |
| SplayModel.LinkLeftStep | network/include/xy_rbtree.h:47-52 | One write into the hole of the right tree hangs the root there, although the hole's old link is stale. |
| SplayModel.LinkRightStep | network/include/xy_rbtree.h:54-59 | The same for the left tree. |
| SplayModel.AssembleStep | network/include/xy_rbtree.h:61-67 | The four writes of SPLAY_ASSEMBLE store the assembled tree, also when a side is still the dummy node. |
| SplayTree.ClosestIsNeighbour | network/include/xy_rbtree.h:147-174 | With the sought key absent, the root stands next to the gap in the in-order sequence: it is the predecessor or the successor. |
| SplayTree.SplayTree.Splay | network/include/xy_rbtree.h:147-174 | For any non-empty search tree the loop terminates, keeps the in-order sequence and the items, and leaves at the root the sought key or its neighbour. |
| SplayTree.SplayTree.SearchLeft | network/include/xy_rbtree.h:155-162 | One turn for a smaller key keeps the three-part invariant; it goes down one level, or two with a rotation when the child's key is larger too, and stops exactly where there is no child to go to. |
| SplayTree.SplayTree.SearchRight | network/include/xy_rbtree.h:163-171 | The mirrored turn. |
| SplayTree.SplayTree.Find | network/include/xy_rbtree.h:76-82 | The item with the key or NULL, exactly when no item has it; items and order unchanged. |
| SplayTree.SplayTree.Insert | network/include/xy_rbtree.h:107-127 | Set insertion: `elm` is added and NULL returned exactly when no item has its key; otherwise that item is returned and items and order are unchanged. |
| SplayTree.SplayTree.Remove | network/include/xy_rbtree.h:129-145 | Set removal: exactly the item with the key is gone, and the argument is returned exactly when there was one. |
| Windows.CollectShifts | network/include/xy_tcp_wnd.h:39-61 | Taking the run off the front shifts whatever is known of every slot by the run's length. |
| Windows.TookRun | network/include/xy_tcp_wnd.h:42-58 | Blanking slots from the head on, around the end of the array, is taking the run off the ring read from its head. |
| Windows.RcvWindow.TryPut | network/include/xy_tcp_wnd.h:24-37 | The buffer is written to the slot at its offset from the head (offset 4096 is the head's own), every other slot keeps what it holds, and a larger offset is turned down and changes nothing. |
| Windows.RcvWindow.Collect | network/include/xy_tcp_wnd.h:39-61 | The buffers from the head to the first gap are appended to the list in order, their number is returned, and every slot beyond moves up by it. |
| Windows.SndWindow.Add | network/include/xy_tcp_wnd.h:76-82 | The buffer is appended to the contents; in a ring of 4095 entries the contents become empty. |
| Windows.SndWindow.Erase | network/include/xy_tcp_wnd.h:64-68 | The first `n` entries are dropped. |
| Windows.SndWindow.Size | network/include/xy_tcp_wnd.h:70-74 | The number of entries. |
| SlidingWindow.Tcb.AckWindowUpdate | network/include/xy_tcp_wnd_hdl.h:13-38 | The control block changes by `Acked`: an acknowledgment of segments in flight drops exactly that prefix of the send ring, and the window is taken from it only if it is not older. |
| SlidingWindow.AckedEffect | network/include/xy_tcp_wnd_hdl.h:13-38 | Field by field: an acknowledgment of segments in flight drops exactly these, and the window is taken exactly when the segment is not older; any other changes nothing. |
| SlidingWindow.Tcb.RecvWindowUpdate | network/include/xy_tcp_wnd_hdl.h:47-65 | The control block changes by `Arrived`: the expected segment delivers the whole gap-free run and moves rcv_nxt by its length, any other segment only waits. |
| SlidingWindow.UpdateReceiver | network/include/xy_tcp_wnd_hdl.h:47-65 | The same on the parts of a control block. |
| SlidingWindow.ArrivedEffect | network/include/xy_tcp_wnd_hdl.h:47-65 | Slot by slot: the expected segment is delivered with all that waits behind it without a gap; any other inside the window waits in its own slot and nothing else changes. |
| SlidingWindow.Tcb.SendBuf | network/src/xy_tcp_send.cc:14-36 | The head of the ring goes out again with its own number, then as many waiting buffers as window, ring and list allow, each with the next number and entered into the ring. |
| SlidingWindow.SentNext | network/src/xy_tcp_send.cc:30-34 | One turn of the sending loop: its guard holds exactly when another buffer is to be sent. |
| SlidingWindow.TransmittedEffect | network/src/xy_tcp_send.cc:14-36 | What is sent, with which numbers, and what ring and list hold afterwards, as a closed form in window, ring and list. |
| SlidingWindow.AckedAsWrittenIff | network/include/xy_tcp_wnd_hdl.h:17-34 | As written, an acknowledgment leaves ring and numbers in agreement exactly when it is not accepted. |
| SlidingWindow.ResentAsWrittenIff | network/src/xy_tcp_send.cc:25-28 | As written, a resend leaves ring and numbers in agreement exactly when the ring is empty. |
| SlidingWindow.FirstSegmentFails | network/src/xy_tcp_send.cc:25-34 | Both lines as written fail after the first segments any connection sends: with a second call of tcp_send_buf, and with any accepted acknowledgment. |
| SlidingWindow.BurstAsWrittenIff | network/src/xy_tcp_send.cc:30-34 | As written the loop sends exactly the buffers that wait and fit only when the window is full or asks for no more than are waiting and the ring can hold. |
| SlidingWindow.EmptySegmentAsWrittenIff | network/include/xy_tcp_state_others.h:198-204 | As written a segment without data leaves the receiver as it was exactly when its number lies beyond the window; at the number expected it makes the text with that number be turned down. |
| Protocol.SendKeepsInv | network/src/xy_tcp_send.cc:14-36 | A send keeps the protocol's invariant. |
| Protocol.AckKeepsInv | network/include/xy_tcp_wnd_hdl.h:13-38 | Every acknowledgment, old or repeated, keeps it; an accepted one drops exactly the acknowledged prefix of the ring. |
| Protocol.DataKeepsInv | network/include/xy_tcp_wnd_hdl.h:47-65 | Every data segment, lost before, repeated or out of order, keeps it. |
| Protocol.DataOffset | network/include/xy_tcp_wnd.h:27-30 | A live segment is admitted exactly at its own offset, across the wrap of the sequence space, and one already delivered is turned down. |
| Protocol.AcceptedExactly | network/include/xy_tcp_wnd_hdl.h:17-18 | The plain comparisons accept a live acknowledgment exactly when the numbers in flight do not cross the end of the sequence space. |
| Protocol.DeliveredIsPrefix | network/include/xy_tcp_wnd_hdl.h:47-65 | Over every run of sender, receiver and network, what is delivered is a prefix of what the user queued: each buffer once and in order. |
| Protocol.DeliveryGrows | network/include/xy_tcp_wnd_hdl.h:47-65 | Along a run the delivered list, the queued list and the acknowledged count only grow. |
| Protocol.RingIsWindow | network/include/xy_tcp_wnd.h:64-82 | In every reachable state the send ring is exactly the queued buffers snd_una..snd_nxt-1 in order, its size is snd_nxt - snd_una, and what is acknowledged was delivered. |
| Protocol.LossIsRecovered | network/src/xy_tcp_send.cc:23-28 | From every state with segments in flight, whatever was lost, one more send whose resent segment and acknowledgment get through advances snd_una, if the numbers in flight then do not cross the end of the sequence space. |
| Protocol.WedgedForEver | network/include/xy_tcp_wnd_hdl.h:17-18 | Once they do cross it, snd_una never moves again on any run. |
| Protocol.CrossingIsReached | network/src/xy_tcp_send.cc:10 | A run from the initial state gets there. |
| ReceiveOrder.ArrivalInOrder | network/include/xy_tcp_wnd_hdl.h:56-62 | One arrival keeps each slot k in 1..4095 empty or holding segment rcv_nxt + k. |
| ReceiveOrder.ArrivalsInOrder | network/include/xy_tcp_wnd.h:24-61 | For every sequence of arrivals, across the 32-bit wrap, slots hold only their own segments, a segment admitted at offset 4096 only ever sits in the head slot, and what is collected has consecutive numbers. |
| ReceiveOrder.NothingForgotten | network/include/xy_tcp_wnd.h:24-61 | When the first n segments have all come, in any order and however often, none beyond the window when it came, all n are delivered. |
| Mpmc.Exclusive | queue/include/xy_mpmc.h:38-39 | No lock has two holders. |
| Mpmc.NextKeepsInv | queue/include/xy_mpmc.h:34-67 | Every single step of every thread keeps the invariant: locks, both directions of links, the nodes on their way in and out. |
| Mpmc.CheckShape | queue/include/xy_mpmc.h:37-39 | With the tail locked and no link under way tail->prev is the last node, so the second look decides correctly. |
| Mpmc.CommitShape | queue/include/xy_mpmc.h:41 | The store prev->next = node appends the node, although the other three links are still missing. |
| Mpmc.TakeShape | queue/include/xy_mpmc.h:64 | The store head->next = second removes the first node, even while enqueuers are at work behind it. |
| Mpmc.StepRefines | queue/include/xy_mpmc.h:34-67 | Every step is a step of an atomic queue: nothing, one new node appended, or the first node taken. |
| Mpmc.CommitAdds | queue/include/xy_mpmc.h:41 | The history of added nodes grows exactly by one thread's store prev->next = node, and by that thread's node. |
| Mpmc.RunsAreFifo | queue/include/xy_mpmc.h:34-67 | Over every interleaving of any number of enqueuers and one dequeuer, what was added is what was taken followed by what is queued: nothing lost, duplicated or reordered. |
| Mpmc.DequeueResult | queue/include/xy_mpmc.h:48-67 | In every run, a call of mpmc_list_del_head returns a node exactly if it took one, the first of the queue, at exactly one of its steps; it returns NULL only after a moment at which the queue was empty, and then took nothing. |
| Mpmc.EnqueueResult | queue/include/xy_mpmc.h:34-46 | In every run, a call of mpmc_list_add_tail adds its node at exactly one of the steps between its first and its return, and adds nothing else. |
| Mpmc.QuietList | queue/include/xy_mpmc.h:41-44 | With no call under way both directions of links run through exactly the queued nodes. |
| Mpmc.RunsMakeProgress | queue/include/xy_mpmc.h:38-39 | In every reachable state with a call under way some thread can take a step. |
| Mpmc.EnqAloneReturns | queue/include/xy_mpmc.h:34-46 | A call of mpmc_list_add_tail that no other call disturbs returns after at most ten steps, with its node added. |
| Mpmc.DeqAloneReturns | queue/include/xy_mpmc.h:48-67 | A call of mpmc_list_del_head that no other call disturbs returns after at most ten steps. |
| Mpmc.CommitAsWrittenIff | queue/include/xy_mpmc.h:37-41 | As written, the store prev->next = node leaves the next links running through all queued nodes, in order, exactly when tail->prev is what the thread read before it held the locks. |
| Mpmc.AsWrittenIff | queue/include/xy_mpmc.h:34-46 | In a run of the code as written every queued node can be reached from head in every state exactly when no thread ever stores its link after a stale read. |
| Mpmc.FreshRunsAreFifo | queue/include/xy_mpmc.h:34-67 | Without a stale read every run of the code as written is an atomic FIFO queue too. |
| Mpmc.StaleReadLosesNode | queue/include/xy_mpmc.h:37-44 | As written there is a run from the empty list, of two calls that both return, after which a queued node cannot be reached. |
| SpscRing.NewHeadIff | queue/include/xy_ring.h:60-71 | The stored head is min(n, length) elements on exactly when head + n does not overflow 64 bits, but for one overflowing n that hits the tail. |
| SpscRing.CountAsWrittenIff | queue/include/xy_ring.h:60-74 | The returned value as written counts the removed elements exactly when the ring is wrapped or at least n elements are there. |
| SpscRing.EmptyRingCount | queue/include/xy_ring.h:60-74 | In every reachable state with an empty ring the call as written returns n and removes nothing. |
| SpscRing.ProducerKeeps | queue/include/xy_ring.h:37-53 | Every producer step keeps the ring's invariant under a stale head. |
| SpscRing.ConsumerKeeps | queue/include/xy_ring.h:27-34 | Every consumer step of peek and del keeps it under a stale tail. |
| SpscRing.DelStoreKeeps | queue/include/xy_ring.h:56-75 | The store of the new head drops exactly min(n, length when tail was read) elements. |
| SpscRing.RunsAreFifo | queue/include/xy_ring.h:27-75 | Over every interleaving the ring is a FIFO queue of at most 65535 elements. |
| SpscRing.Results | queue/include/xy_ring.h:27-75 | An add fails exactly when the queue was full when head was read, a peek yields the oldest element, a del removes min(n, length when tail was read). |
| SpscRing.Effects | queue/include/xy_ring.h:27-75 | The step at which each call takes effect, and the lengths seen by its reads; a peek gives up only on an empty queue. |
| SpscRing.AddResult | queue/include/xy_ring.h:37-53 | In every run, an add that returns 0 adds its element at exactly one of its steps; one that fails adds nothing, and the ring was full at one of its steps. |
| SpscRing.DelResult | queue/include/xy_ring.h:56-75 | In every run, a del removes, at exactly one of its steps, the first min(n, length) elements, for the length at one of its steps, and reports their number. |
| SpscRing.PeekResult | queue/include/xy_ring.h:27-34 | In every run, a peek removes nothing and yields the oldest element, or NULL if the ring was empty at one of its steps. |
| SpscRing.WaitFree | queue/include/xy_ring.h:27-75 | No call waits for the other thread: each of its steps brings it nearer its return. |
| TcpState.AcceptableAsWrittenIff | network/include/xy_tcp_state_others.h:77-78 | As written the test is right about a number exactly when the window runs over the end of the sequence space or the number lies in the window; otherwise it lets everything pass. |
| TcpState.TcpSocket.AckWindowUpdate | network/include/xy_tcp_wnd_hdl.h:13-38 | The send numbers after an acknowledgment. |
| TcpState.AckUpdatedIsAcked | network/include/xy_tcp_wnd_hdl.h:13-38 | On the numbers of the control block it is the update of the sliding window's sender. |
| TcpState.TcpSocket.CheckAck | network/include/xy_tcp_state_others.h:139-183 | The switch on the state at the ACK stage, with the fall through from SYN-RECEIVED and the move to the list of established sockets. |
| TcpState.TcpSocket.ProcessText | network/include/xy_tcp_state_others.h:10-24 | In ESTABLISHED, FIN-WAIT-1 and FIN-WAIT-2, and in no other state, text is signalled to the event poll, put into the receive window and acknowledged. |
| TcpState.TcpSocket.ProcessFin | network/include/xy_tcp_state_others.h:210-257 | The switch at the FIN stage, under a precondition that makes two of its arms dead. |
| TcpState.FinArmsAreDead | network/include/xy_tcp_state_others.h:224-233 | The FIN arms for SYN-RECEIVED and for an acknowledged FIN in FIN-WAIT-1 are unreachable. |
| TcpState.TcpSocket.OnLater | network/include/xy_tcp_state_others.h:44-260 | state_tcp_otherwise performs the staged function `Otherwise`: the socket, its lists, the replies and the signal. |
| TcpState.TcpSocket.OnSynSent | network/include/xy_tcp_state_syn_sent.h:9-87 | state_tcp_syn_sent performs `InSynSent`, replies included. |
| TcpState.TcpSocket.OnListen | network/include/xy_tcp_state_listen.h:10-70 | A listener makes a new socket exactly for a SYN without ACK and RST, with every field of its control block as set there, and does not change itself. |
| TcpState.TcpSocket.OnArrival | network/src/xy_tcp_recv.cc:50-66 | The dispatch on the state. |
| TcpState.OutsideWindow | network/include/xy_tcp_state_others.h:72-89 | From SYN-RECEIVED on, a segment outside the window changes nothing and is answered with an acknowledgment unless it is a reset. |
| TcpState.WithoutStages | network/include/xy_tcp_state_others.h:91-137 | What a segment in the window with RST, with SYN or without ACK does, lists included. |
| TcpState.HalfOpenBadAck | network/include/xy_tcp_state_others.h:139-144 | In SYN-RECEIVED an acknowledgment out of range is answered with a reset and changes nothing. |
| TcpState.AckCounts | network/include/xy_tcp_state_others.h:139-183 | In every state but LAST-ACK and TIME-WAIT an acknowledgment of something in flight moves snd_una to it, and the window is taken exactly when the segment is not older. |
| TcpState.StateReached | network/include/xy_tcp_state_others.h:139-253 | The state and the lists a segment leads to, for each state, with and without FIN, with everything acknowledged or not. |
| TcpState.TextAndFin | network/include/xy_tcp_state_others.h:185-257 | What becomes of a segment's text, urgent pointer and FIN, and the exact answers. |
| TcpState.InSynSentSegment | network/include/xy_tcp_state_syn_sent.h:9-87 | What a segment does to a socket in SYN-SENT, with the exact answers. |
| TcpState.NotConnected | network/include/xy_tcp_state_close.h:9-27 | A segment leaves a socket in CLOSED or LISTEN as it is; with the exact answers. |
| TcpState.TcpSocket.ListenCall | queue/src/xy_syn_api.cc:44-53 | Only a CLOSED socket listens, and it goes on the list of listeners. |
| TcpState.TcpSocket.ConnectCall | queue/src/xy_syn_api.cc:55-78 | Only a CLOSED socket connects; a SYN joins snd_buf_list and the state stays CLOSED. |
| TcpState.TcpSocket.CloseCall | queue/src/xy_syn_api.cc:88-121 | Only an ESTABLISHED socket is closed, into FIN-WAIT-1, off its list and with a FIN behind what waits in snd_buf_list. |
| TcpState.SegmentEdges | network/include/xy_tcp_state_others.h:92-257 | Every segment keeps the state, or takes one edge of the diagram in section 3.2 of RFC 793 (or the code's CLOSE-WAIT to TIME-WAIT), or two when ACK and FIN both take effect, or a reset edge when it carries RST or SYN. |
| TcpState.ClosingIsLeftByReset | network/include/xy_tcp_state_others.h:170-172 | A socket in CLOSING or TIME-WAIT is left exactly by an acceptable RST or SYN, for CLOSED. |
| TcpState.SegmentLowersRank | network/include/xy_tcp_state_others.h:92-257 | Every change of state by a segment strictly lowers a rank, LISTEN and CLOSED being final. |
| TcpState.ChangesAreBounded | network/include/xy_tcp_state_others.h:92-257 | However many segments arrive, they change the state of a socket at most five times. |
| TcpState.TextIsSignalled | network/include/xy_tcp_state_others.h:15-17 | Whatever a segment adds to the receive window or the user's list is signalled, and a signal comes with text and an acknowledgment. |
| TcpState.AcksAreCurrent | network/include/xy_tcp_state_others.h:254-256 | Acknowledgments carry snd_nxt, and the last one the rcv_nxt that the socket ends with. |
| TcpState.NextKeepsNumbers | network/include/xy_tcp_wnd_hdl.h:17-34 | No segment, send or user call breaks iss <= snd_una <= snd_nxt, moves snd_una back, or moves (snd_wl1, snd_wl2) back. |
| TcpState.RunNumbers | network/include/xy_tcp_wnd_hdl.h:17-34 | The same between any two states of any run. |
| TcpState.WindowOnlyFromNewer | network/include/xy_tcp_wnd_hdl.h:25-34 | snd_wnd is only ever taken from a segment that is not older than the one it was last taken from. |
| TcpState.NeverEntered | queue/src/xy_syn_api.cc:55-121 | No segment and no user call ever enters SYN-SENT or LAST-ACK. |
| TcpState.StaysAtHomeIff | network/include/xy_tcp_state_others.h:91-131 | A socket on the list that belongs to its state stays so with every event but an acceptable RST or SYN from SYN-RECEIVED on. |
| TcpState.ResetStaysListed | network/include/xy_tcp_state_others.h:104-117 | A run of the code in which a reset leaves a socket CLOSED on the list of established sockets. |
| TcpState.RunsArePlaced | network/src/xy_socks.cc:24-34 | In every run of the code, sockets found on the list of listeners are in LISTEN, as the lookup asserts, half-open and established sockets are on their own list only, and no state but six occurs. |
| TcpState.StatesEnteredIff | queue/src/xy_syn_api.cc:44-121 | Over all runs of the code exactly these states are entered: CLOSED, LISTEN, SYN-RECEIVED, ESTABLISHED, CLOSE-WAIT and FIN-WAIT-1. |
| TcpState.ClosedIsTheEnd | queue/src/xy_syn_api.cc:106-119 | Nothing ever happens again to a socket that has left ESTABLISHED by close or by a FIN. |
| TcpState.RunsReceive | network/include/xy_tcp_state_others.h:10-24 | In every run of the code, a half-open, established or FIN-WAIT-1 socket's rcv_nxt is the peer's initial number plus one for its SYN and one for each segment handed to the user. |
| TcpState.FinCountedIff | network/include/xy_tcp_state_others.h:209-257 | A FIN that is taken leaves rcv_nxt at SYN, segments and FIN exactly when it has the number expected and its segment carries no text that is taken. |
| TcpState.FinOverRuns | network/include/xy_tcp_state_others.h:254-256 | The same for the segment that takes a socket to CLOSE-WAIT, in every run of the code. |
| TcpState.EarlyFin | network/include/xy_tcp_state_others.h:254 | A run of the code for each number of the window: a FIN with it sets rcv_nxt past it, with nothing delivered. |
| TcpState.Handshake | network/include/xy_tcp_state_syn_sent.h:17-81 | From LISTEN and an active open, the segments the code generates bring both sides to ESTABLISHED with matching numbers exactly when neither SYN takes the last sequence number. |
| Epoll.RunsKeepOk | network/src/xy_epoll.cc:34-97 | Over every run of ADD, DEL, MOD, callback and wait, ready sockets are registered and listed once. |
| Epoll.EdgeTriggered | network/src/xy_epoll.cc:156-206 | Over every run a socket is reported at most once for each time it was signalled. |
| Epoll.WaitTakesHead | network/src/xy_epoll.cc:158-172 | A wait reports the ready sockets from the head of the list, with their registered events, and takes them off it. |
| Epoll.AddEffect | network/src/xy_epoll.cc:34-59 | ADD registers a new socket with its event, not ready, and nothing else. |
| Epoll.DelEffect | network/src/xy_epoll.cc:61-81 | DEL takes exactly that socket out of the table and off the ready list, whose order is kept. |
| Epoll.ModEffect | network/src/xy_epoll.cc:83-93 | MOD sets the mask of exactly that socket, with errors and hang-ups, and keeps the data. |
| Epoll.SignalEffect | network/src/xy_epoll.cc:180-206 | A signal puts exactly that socket at the head of the ready list, or adds to its mask if it is there. |
| Epoll.WaitEffect | network/src/xy_epoll.cc:156-177 | A wait reports min(max_events, ready) sockets from the head with their registered events, and only these leave the list. |
| Epoll.StaysReady | network/src/xy_epoll.cc:156-206 | A ready or signalled socket stays ready until it is reported or removed. |
| Epoll.DeletedAsWrittenIff | network/src/xy_epoll.cc:61-81 | As written a removal leaves the list well-formed exactly when the item was not ready. |
| Epoll.DeletedAsWrittenFails | network/src/xy_epoll.cc:61-81 | An ADD and a signal lead to a poll for which it fails. |
| Epoll.AddedAsWrittenIff | network/src/xy_epoll.cc:45-56 | As written an addition keeps items and ready list in agreement exactly when malloc happens to have left the flag false. |
| Epoll.EventPoll.CtlAdd | network/src/xy_epoll.cc:34-59 | A new socket is registered with its event, an old one is refused; the assertion after RB_INSERT never fails, and rb_num stays the size of the table. |
| Epoll.EventPoll.CtlDel | network/src/xy_epoll.cc:61-81 | The socket leaves the table and the ready list. |
| Epoll.EventPoll.CtlMod | network/src/xy_epoll.cc:83-93 | The mask is replaced, errors and hang-ups always included, and the data kept. |
| Epoll.EventPoll.Callback | network/src/xy_epoll.cc:184-206 | For the poll the socket is registered with: a ready socket's mask grows, any other goes to the head of the ready list; the assertion fails exactly for an unregistered socket. |
| Epoll.EventPoll.Drain | network/src/xy_epoll.cc:156-177 | At most max_events events are reported from the head of the list, and their items are no longer ready. |
| Epoll.EventPoll.Destroy | network/src/xy_epoll.cc:208-226 | Both the ready list and the tree end up empty. |
| Epoll.EventPoll.ViewOk | network/include/xy_epoll.h:69-83 | In every reachable state rb_num is the size of the table, ready_num the length of the list, and every listed socket is registered. |
| ByteStream.ChunksAreTheBytes | queue/src/xy_syn_api.cc:132-160 | The segments of a send are non-empty, at most 1460 bytes, full but for the last, and together the bytes sent. |
| ByteStream.ByteSocket.Send | queue/src/xy_syn_api.cc:123-163 | The send list grows by those segments and the number of bytes is returned; EINVAL unless ESTABLISHED. |
| ByteStream.ByteSocket.Recv | queue/src/xy_syn_api.cc:164-218 | Exactly the next min(len, unread) bytes are returned, whatever segments they lie in, and the bytes after them stay unread. |
| ByteStream.CountAsWrittenIff | queue/src/xy_syn_api.cc:176-211 | As written the returned count is min(len, unread) exactly when at most len bytes are unread or the segment read from holds that many. |
| ByteStream.ReadIsPrefixOfWritten | queue/src/xy_syn_api.cc:123-218 | In every run of two users, the sliding window protocol and its network, all that the receives returned is a prefix of all that was sent; with the unread bytes it is all of it once every segment is delivered. |
| XyList.AddHead | network/include/xy_list.h:20-26 | The node becomes the first of the list; next and prev stay mutually inverse around the circle. |
| XyList.AddTail | network/include/xy_list.h:28-34 | The node becomes the last of the list. |
| XyList.Del | network/include/xy_list.h:36-42 | Exactly that node leaves the circle. |
| XyList.TakeHead | network/include/xy_list.h:44-48 | The first node is taken; from an empty list the head itself is returned and nothing changes. |
| XyList.TakeTail | network/include/xy_list.h:50-54 | The same for the last node. |
| XyList.IsEmpty | network/include/xy_list.h:56-58 | True exactly for a list that holds nothing. |
| AcceptCursor.Established.Enqueue | queue/src/xy_syn_socks.cc:47-50 | The socket is pushed at the head of the list, which keeps the cursor's place in the order of establishment. |
| AcceptCursor.Established.TakeNext | queue/src/xy_syn_socks.cc:19-33 | The next socket in order of establishment is returned, and none exactly when all were. |
| AcceptCursor.Established.AcceptedInOrder | queue/src/xy_syn_socks.cc:19-50 | In every reachable state the accepted sockets are the first established ones, in order, each once. |
| SocketMap.RunsKeepIds | network/src/xy_manage.cc:21-71 | Over every run of allocations and deallocations of live ids, every id is free once or live, and free plus live is 65536. |
| SocketMap.ReusedLast | network/src/xy_manage.cc:21-71 | Over every run, an id on the free list is not handed out before all the ids ahead of it; so a freed id comes last. |
| SocketMap.SocketTable.constructor | network/src/xy_manage.cc:6-19 | All 65536 entries are unused and on the free list in order. |
| SocketMap.SocketTable.Allocate | network/src/xy_manage.cc:21-45 | The oldest free id is taken and its entry, and no other, marked; none exactly when the free list is empty. |
| SocketMap.SocketTable.Deallocate | network/src/xy_manage.cc:47-71 | The id's entry, and no other, becomes unused and the last of the free list. |
| SocketMap.SocketTable.GetById | network/src/xy_manage.cc:73-79 | An id yields a pointer of the one kind it was allocated for and NULL for the other. |
| SocketMap.SocketTable.ViewOk | network/src/xy_manage.cc:3-19 | In every reachable state an entry is on the free list, once, exactly when it is unused, and free plus live is 65536. |

## Left out

- Device set-up, Ethernet, IP, ARP and ICMP handling, header layout, byte order and checksums (`xy_init.cc`, `xy_eth.cc`, `xy_ip.cc`, `xy_tcp.cc`, `xy_arp.cc`, `xy_icmp.cc`): plumbing over an external library; a segment is a value with numbers, control bits and a payload.
- malloc failure, memory reclamation, and list nodes inside mbuf headers: nodes are separate objects.
- Relaxed memory orders, condition variables, timed waits and clocks: every load, store, lock and unlock is one atomic step in a sequentially consistent interleaving.
- The port bitmap, the linear list lookups and the blocking wrappers (`xy_tcp_port.h`, `xy_socks.cc`, `xy_api.cc`): only easy members.
- mpmc_list_add_head, xy_ring_empty and SPLAY_NEXT, SPLAY_MIN_MAX: nothing in the repository calls them.
- RB_AUGMENT and the FOREACH variants that start or stop elsewhere: the macro is empty, and the variants are the same loop.
- TcpState: one socket is looked at. That a segment's addresses and ports match is not modelled, nor what a list goes through when a socket that a reset left on it is put on another. The runs of `NextKeepsNumbers` and `RunNumbers` let segments reach a socket in every state, those of `RunsArePlaced` only one on a list.
- TcpState: the send ring is not part of a socket there, and a send may move any number of waiting buffers. An acknowledgment of our SYN counts one number that is not in the ring; the sliding window modules start from ESTABLISHED with both rings empty.
- SlidingWindow and Protocol: their data segments reach `tcp_recv_window_update`, as segments that carry ACK do; `queue/src/xy_syn_api.cc:104` and `:154` build segments without it, which the receiving half of the same code drops (`TcpState.WithoutAckIgnored`).
- Protocol.DeliveredIsPrefix: assumes that no message outlives the 32-bit sequence space (a step that takes a message needs it to be alive), as RFC 793 does.
- TcpState.RunNumbers: assumes that snd_nxt does not wrap, the comparisons of the code being plain.
- TcpState.Handshake: the active open is the one of section 3.9 of RFC 793, since nothing in the code enters SYN-SENT.
- AcceptCursor.Established.TakeNext: removals from the established list are not modelled; a socket removed while the cursor stands on it takes the cursor off the list.
- SpscRing.RunsAreFifo: a call of xy_spsc_ring_del must not make head + n overflow; `SpscRing.NewHeadIff` says what happens otherwise.
- Epoll.EventPoll.Callback: the lookup of the poll by the socket's id is not modelled, since it finds none.
- Epoll and ByteStream: the ready list and the buffer lists are sequences; the linked list itself is in `XyList`, which the socket table and the accept cursor use.
- Epoll.EventPoll.Drain: waiting for events, with its timeout, is left out; so are the mutexes, one call being one step.
- Retransmission timers, the TIME-WAIT timeout, urgent data beyond rcv_up and congestion control: the source does not implement them.
