/** The trees behind the top-down splay macros of network/include/xy_rbtree.h: while
    name_SPLAY runs, the tree is in three parts, the nodes left of the path walked so far
    (`Lefts`), the subtree still to search, and the nodes right of it (`Rights`). */
module SplayModel {

  class SplayNode {
    const key: int
    var left: SplayNode?
    var right: SplayNode?

    constructor (key: int)
      ensures this.key == key && left == null && right == null
    {
      this.key, this.left, this.right := key, null, null;
    }
  }

  datatype Tree = Leaf | Node(left: Tree, item: SplayNode, right: Tree)

  /** The left tree, from its last node up: its right spine ends in a hole. */
  datatype Lefts = LeftEnd | LeftLink(up: Lefts, left: Tree, item: SplayNode)

  /** The right tree, from its first node up: its left spine ends in a hole. */
  datatype Rights = RightEnd | RightLink(up: Rights, item: SplayNode, right: Tree)

  ghost function Inorder(t: Tree): seq<SplayNode> {
    match t
    case Leaf => []
    case Node(l, x, r) => Inorder(l) + [x] + Inorder(r)
  }

  ghost function LeftSeq(l: Lefts): seq<SplayNode> {
    match l
    case LeftEnd => []
    case LeftLink(up, t, x) => LeftSeq(up) + Inorder(t) + [x]
  }

  ghost function RightSeq(r: Rights): seq<SplayNode> {
    match r
    case RightEnd => []
    case RightLink(up, x, t) => [x] + Inorder(t) + RightSeq(up)
  }

  ghost function Whole(l: Lefts, m: Tree, r: Rights): seq<SplayNode> {
    LeftSeq(l) + Inorder(m) + RightSeq(r)
  }

  ghost predicate Sorted(s: seq<SplayNode>) {
    forall i, j :: 0 <= i < j < |s| ==> s[i].key < s[j].key
  }

  /** Filling the hole of the left tree, and of the right tree. */
  ghost function FillLeft(l: Lefts, t: Tree): Tree {
    match l
    case LeftEnd => t
    case LeftLink(up, a, x) => FillLeft(up, Node(a, x, t))
  }

  ghost function FillRight(r: Rights, t: Tree): Tree {
    match r
    case RightEnd => t
    case RightLink(up, x, b) => FillRight(up, Node(t, x, b))
  }

  lemma {:induction false} FillLeftInorder(l: Lefts, t: Tree)
    ensures Inorder(FillLeft(l, t)) == LeftSeq(l) + Inorder(t)
  {
    match l
    case LeftEnd =>
    case LeftLink(up, a, x) =>
      FillLeftInorder(up, Node(a, x, t));
      assert LeftSeq(up) + (Inorder(a) + [x] + Inorder(t)) == LeftSeq(up) + Inorder(a) + [x] + Inorder(t);
  }

  lemma {:induction false} FillRightInorder(r: Rights, t: Tree)
    ensures Inorder(FillRight(r, t)) == Inorder(t) + RightSeq(r)
  {
    match r
    case RightEnd =>
    case RightLink(up, x, b) =>
      FillRightInorder(up, Node(t, x, b));
      assert Inorder(t) + [x] + Inorder(b) + RightSeq(up) == Inorder(t) + ([x] + Inorder(b) + RightSeq(up));
  }

  /** SPLAY_ASSEMBLE, seen on trees. */
  ghost function Assembled(l: Lefts, m: Tree, r: Rights): Tree
    requires m.Node?
  {
    Node(FillLeft(l, m.left), m.item, FillRight(r, m.right))
  }

  lemma Surround(p: seq<SplayNode>, a: seq<SplayNode>, x: SplayNode, b: seq<SplayNode>, q: seq<SplayNode>)
    ensures p + a + [x] + (b + q) == p + (a + [x] + b) + q
  {
  }

  lemma AssembledInorder(l: Lefts, m: Tree, r: Rights)
    requires m.Node?
    ensures Inorder(Assembled(l, m, r)) == Whole(l, m, r)
  {
    hide FillLeft, FillRight, LeftSeq, RightSeq;
    FillLeftInorder(l, m.left);
    FillRightInorder(r, m.right);
    Surround(LeftSeq(l), Inorder(m.left), m.item, Inorder(m.right), RightSeq(r));
  }

  // ----- the moves of the loop, seen on trees

  ghost function RotatedRight(t: Tree): Tree
    requires t.Node? && t.left.Node?
  {
    Node(t.left.left, t.left.item, Node(t.left.right, t.item, t.right))
  }

  ghost function RotatedLeft(t: Tree): Tree
    requires t.Node? && t.right.Node?
  {
    Node(Node(t.left, t.item, t.right.left), t.right.item, t.right.right)
  }

  lemma Regroup(a: seq<SplayNode>, x: SplayNode, b: seq<SplayNode>, y: SplayNode, c: seq<SplayNode>)
    ensures a + [x] + (b + [y] + c) == a + [x] + b + [y] + c
  {
  }

  lemma RotateRightKeepsOrder(t: Tree)
    requires t.Node? && t.left.Node?
    ensures Inorder(RotatedRight(t)) == Inorder(t)
  {
    Regroup(Inorder(t.left.left), t.left.item, Inorder(t.left.right), t.item, Inorder(t.right));
  }

  lemma RotateLeftKeepsOrder(t: Tree)
    requires t.Node? && t.right.Node?
    ensures Inorder(RotatedLeft(t)) == Inorder(t)
  {
    Regroup(Inorder(t.left), t.item, Inorder(t.right.left), t.right.item, Inorder(t.right.right));
  }

  lemma LinkKeepsOrder(l: Lefts, m: Tree, r: Rights)
    requires m.Node?
    ensures Whole(l, m.left, RightLink(r, m.item, m.right)) == Whole(l, m, r)
    ensures Whole(LeftLink(l, m.left, m.item), m.right, r) == Whole(l, m, r)
  {
    var p, a, x, b, s := LeftSeq(l), Inorder(m.left), m.item, Inorder(m.right), RightSeq(r);
    assert p + a + ([x] + b + s) == p + (a + [x] + b) + s;
    assert p + a + [x] + b + s == p + (a + [x] + b) + s;
  }

  ghost function Size(t: Tree): nat {
    if t.Leaf? then 0 else Size(t.left) + 1 + Size(t.right)
  }

  // ----- sorted sequences

  lemma SortedParts(a: seq<SplayNode>, b: seq<SplayNode>)
    requires Sorted(a + b)
    ensures Sorted(a) && Sorted(b)
    ensures forall x, y :: x in a && y in b ==> x.key < y.key
  {
    var s := a + b;
    assert forall i :: 0 <= i < |a| ==> a[i] == s[i];
    assert forall j :: 0 <= j < |b| ==> b[j] == s[|a| + j];
  }

  lemma SortedJoin(a: seq<SplayNode>, b: seq<SplayNode>)
    requires Sorted(a) && Sorted(b)
    requires forall x, y :: x in a && y in b ==> x.key < y.key
    ensures Sorted(a + b)
  {
  }

  lemma SortedNode(t: Tree)
    requires t.Node? && Sorted(Inorder(t))
    ensures Sorted(Inorder(t.left)) && Sorted(Inorder(t.right))
    ensures forall x :: x in Inorder(t.left) ==> x.key < t.item.key
    ensures forall x :: x in Inorder(t.right) ==> t.item.key < x.key
    ensures forall x, y :: x in Inorder(t.left) && y in Inorder(t.right) ==> x.key < y.key
  {
    SortedParts(Inorder(t.left) + [t.item], Inorder(t.right));
    SortedParts(Inorder(t.left), [t.item]);
    assert t.item in Inorder(t.left) + [t.item];
  }

  lemma SortedThree(l: Lefts, m: Tree, r: Rights)
    requires Sorted(Whole(l, m, r))
    ensures Sorted(LeftSeq(l)) && Sorted(Inorder(m)) && Sorted(RightSeq(r))
    ensures forall x, y :: x in LeftSeq(l) && y in Inorder(m) ==> x.key < y.key
    ensures forall x, y :: x in LeftSeq(l) && y in RightSeq(r) ==> x.key < y.key
    ensures forall x, y :: x in Inorder(m) && y in RightSeq(r) ==> x.key < y.key
  {
    SortedParts(LeftSeq(l) + Inorder(m), RightSeq(r));
    SortedParts(LeftSeq(l), Inorder(m));
  }

  // ----- how the parts sit in memory

  datatype Links = Links(left: SplayNode?, right: SplayNode?)

  type Heap = map<SplayNode, Links>

  ghost function Snapshot(nodes: set<SplayNode>): (h: Heap)
    reads nodes`left, nodes`right
    ensures h.Keys == nodes
  {
    // the else branch makes the value depend on nothing outside the set
    map x | x in nodes :: if x in nodes then Links(x.left, x.right) else Links(null, null)
  }

  ghost function WroteLeft(h: Heap, x: SplayNode, v: SplayNode?): Heap
    requires x in h
  {
    h[x := Links(v, h[x].right)]
  }

  ghost function WroteRight(h: Heap, x: SplayNode, v: SplayNode?): Heap
    requires x in h
  {
    h[x := Links(h[x].left, v)]
  }

  ghost function Root(t: Tree): SplayNode? {
    if t.Leaf? then null else t.item
  }

  ghost predicate Stored(h: Heap, t: Tree) {
    t.Node? ==>
      t.item in h && h[t.item] == Links(Root(t.left), Root(t.right)) && Stored(h, t.left) && Stored(h, t.right)
  }

  /** The node whose right link is the hole of the left tree; `d` is the dummy __node. */
  ghost function LeftHole(d: SplayNode, l: Lefts): SplayNode {
    if l.LeftEnd? then d else l.item
  }

  ghost function RightHole(d: SplayNode, r: Rights): SplayNode {
    if r.RightEnd? then d else r.item
  }

  /** The left tree hangs off the dummy's right link; the hole's link may hold anything. */
  ghost predicate LeftStored(h: Heap, d: SplayNode, l: Lefts) {
    l.LeftLink? ==>
      && l.item in h && h[l.item].left == Root(l.left) && Stored(h, l.left)
      && LeftHole(d, l.up) in h && h[LeftHole(d, l.up)].right == l.item && LeftStored(h, d, l.up)
  }

  ghost predicate RightStored(h: Heap, d: SplayNode, r: Rights) {
    r.RightLink? ==>
      && r.item in h && h[r.item].right == Root(r.right) && Stored(h, r.right)
      && RightHole(d, r.up) in h && h[RightHole(d, r.up)].left == r.item && RightStored(h, d, r.up)
  }

  ghost function Items(s: seq<SplayNode>): set<SplayNode> {
    set x | x in s
  }

  /** Memory in the loop of name_SPLAY: `root` is (head)->sph_root. */
  ghost predicate Split(h: Heap, d: SplayNode, root: SplayNode?, l: Lefts, m: Tree, r: Rights) {
    && Sorted(Whole(l, m, r)) && d !in Whole(l, m, r)
    && h.Keys == Items(Whole(l, m, r)) + {d}
    && Stored(h, m) && root == Root(m)
    && LeftStored(h, d, l) && RightStored(h, d, r)
  }

  ghost predicate Agree(h: Heap, h': Heap, s: seq<SplayNode>) {
    forall x :: x in s && x in h ==> x in h' && h'[x] == h[x]
  }

  lemma {:induction false} StoredFrame(h: Heap, h': Heap, t: Tree)
    requires Stored(h, t) && Agree(h, h', Inorder(t))
    ensures Stored(h', t)
  {
    if t.Node? {
      StoredFrame(h, h', t.left);
      StoredFrame(h, h', t.right);
    }
  }

  lemma {:induction false} LeftFrame(h: Heap, h': Heap, d: SplayNode, l: Lefts)
    requires LeftStored(h, d, l) && Agree(h, h', LeftSeq(l))
    requires d in h && d in h' && h'[d].right == h[d].right
    ensures LeftStored(h', d, l)
  {
    if l.LeftLink? {
      StoredFrame(h, h', l.left);
      LeftFrame(h, h', d, l.up);
      assert LeftHole(d, l.up) in h';
    }
  }

  lemma {:induction false} RightFrame(h: Heap, h': Heap, d: SplayNode, r: Rights)
    requires RightStored(h, d, r) && Agree(h, h', RightSeq(r))
    requires d in h && d in h' && h'[d].left == h[d].left
    ensures RightStored(h', d, r)
  {
    if r.RightLink? {
      StoredFrame(h, h', r.right);
      RightFrame(h, h', d, r.up);
      assert RightHole(d, r.up) in h';
    }
  }

  // ----- no two parts share a node

  ghost predicate Apart(a: seq<SplayNode>, b: seq<SplayNode>) {
    forall x :: x in a ==> x !in b
  }

  lemma SplitApart(h: Heap, d: SplayNode, root: SplayNode?, l: Lefts, m: Tree, r: Rights)
    requires Split(h, d, root, l, m, r)
    ensures Sorted(LeftSeq(l)) && Sorted(Inorder(m)) && Sorted(RightSeq(r))
    ensures d !in LeftSeq(l) && d !in Inorder(m) && d !in RightSeq(r)
    ensures Apart(Inorder(m), LeftSeq(l)) && Apart(Inorder(m), RightSeq(r))
    ensures LeftHole(d, l) in h && LeftHole(d, l) !in Inorder(m) && LeftHole(d, l) !in RightSeq(r)
    ensures RightHole(d, r) in h && RightHole(d, r) !in Inorder(m) && RightHole(d, r) !in LeftSeq(l)
    ensures d in h && (m.Node? ==> m.item in h && m.item in Inorder(m))
  {
    SortedThree(l, m, r);
    if l.LeftLink? {
      assert l.item in LeftSeq(l) && l.item in Whole(l, m, r);
    }
    if r.RightLink? {
      assert r.item in RightSeq(r) && r.item in Whole(l, m, r);
    }
  }

  lemma NodeApart(t: Tree)
    requires t.Node? && Sorted(Inorder(t))
    ensures Sorted(Inorder(t.left)) && Sorted(Inorder(t.right))
    ensures t.item !in Inorder(t.left) && t.item !in Inorder(t.right)
    ensures Apart(Inorder(t.left), Inorder(t.right)) && Apart(Inorder(t.right), Inorder(t.left))
  {
    SortedNode(t);
  }

  // ----- the macros, on memory

  lemma RotateRightStored(h: Heap, h': Heap, m: Tree)
    requires Stored(h, m) && Sorted(Inorder(m)) && m.Node? && m.left.Node? && m.item in h && m.left.item in h
    requires h' == WroteRight(WroteLeft(h, m.item, Root(m.left.right)), m.left.item, m.item)
    ensures Stored(h', RotatedRight(m))
  {
    NodeApart(m);
    NodeApart(m.left);
    hide Sorted;
    StoredFrame(h, h', m.left.left);
    StoredFrame(h, h', m.left.right);
    StoredFrame(h, h', m.right);
  }

  lemma RotateLeftStored(h: Heap, h': Heap, m: Tree)
    requires Stored(h, m) && Sorted(Inorder(m)) && m.Node? && m.right.Node? && m.item in h && m.right.item in h
    requires h' == WroteLeft(WroteRight(h, m.item, Root(m.right.left)), m.right.item, m.item)
    ensures Stored(h', RotatedLeft(m))
  {
    NodeApart(m);
    NodeApart(m.right);
    hide Sorted;
    StoredFrame(h, h', m.right.left);
    StoredFrame(h, h', m.right.right);
    StoredFrame(h, h', m.left);
  }

  /** Writes inside the middle tree do not touch the outer parts. */
  lemma MiddleChanged(h: Heap, h': Heap, d: SplayNode, root: SplayNode?, l: Lefts, m: Tree, m': Tree, r: Rights)
    requires Split(h, d, root, l, m, r) && Inorder(m') == Inorder(m) && Stored(h', m')
    requires h'.Keys == h.Keys && forall x :: x in h && x !in Inorder(m) ==> h'[x] == h[x]
    ensures Split(h', d, Root(m'), l, m', r)
  {
    SplitApart(h, d, root, l, m, r);
    hide Sorted;
    LeftFrame(h, h', d, l);
    RightFrame(h, h', d, r);
  }

  /** SPLAY_ROTATE_RIGHT */
  lemma RotateRightStep(h: Heap, d: SplayNode, root: SplayNode?, l: Lefts, m: Tree, r: Rights)
    requires Split(h, d, root, l, m, r) && m.Node? && m.left.Node?
    ensures m.item in h && m.left.item in h
    ensures Split(WroteRight(WroteLeft(h, m.item, Root(m.left.right)), m.left.item, m.item), d, m.left.item, l,
      RotatedRight(m), r)
  {
    assert Stored(h, m.left);
    var h' := WroteRight(WroteLeft(h, m.item, Root(m.left.right)), m.left.item, m.item);
    RotateRightKeepsOrder(m);
    SplitApart(h, d, root, l, m, r);
    RotateRightStored(h, h', m);
    assert m.left.item in Inorder(m.left) && m.left.item in Inorder(m);
    MiddleChanged(h, h', d, root, l, m, RotatedRight(m), r);
  }

  /** SPLAY_ROTATE_LEFT */
  lemma RotateLeftStep(h: Heap, d: SplayNode, root: SplayNode?, l: Lefts, m: Tree, r: Rights)
    requires Split(h, d, root, l, m, r) && m.Node? && m.right.Node?
    ensures m.item in h && m.right.item in h
    ensures Split(WroteLeft(WroteRight(h, m.item, Root(m.right.left)), m.right.item, m.item), d, m.right.item, l,
      RotatedLeft(m), r)
  {
    assert Stored(h, m.right);
    var h' := WroteLeft(WroteRight(h, m.item, Root(m.right.left)), m.right.item, m.item);
    RotateLeftKeepsOrder(m);
    SplitApart(h, d, root, l, m, r);
    RotateLeftStored(h, h', m);
    assert m.right.item in Inorder(m.right) && m.right.item in Inorder(m);
    MiddleChanged(h, h', d, root, l, m, RotatedLeft(m), r);
  }

  lemma RightHoleWritten(h: Heap, h': Heap, d: SplayNode, r: Rights, v: SplayNode?)
    requires Sorted(RightSeq(r)) && d !in RightSeq(r) && RightStored(h, d, r)
    requires RightHole(d, r) in h && d in h && h' == WroteLeft(h, RightHole(d, r), v)
    ensures RightStored(h', d, r)
  {
    if r.RightLink? {
      var rest := Inorder(r.right) + RightSeq(r.up);
      assert [r.item] + rest == RightSeq(r);
      SortedParts([r.item], rest);
      assert r.item in [r.item] && r.item !in rest;
      assert forall x :: x in Inorder(r.right) || x in RightSeq(r.up) ==> x in rest;
      StoredFrame(h, h', r.right);
      RightFrame(h, h', d, r.up);
    }
  }

  lemma LeftHoleWritten(h: Heap, h': Heap, d: SplayNode, l: Lefts, v: SplayNode?)
    requires Sorted(LeftSeq(l)) && d !in LeftSeq(l) && LeftStored(h, d, l)
    requires LeftHole(d, l) in h && d in h && h' == WroteRight(h, LeftHole(d, l), v)
    ensures LeftStored(h', d, l)
  {
    if l.LeftLink? {
      var rest := LeftSeq(l.up) + Inorder(l.left);
      SortedParts(rest, [l.item]);
      assert l.item in [l.item] && l.item !in rest;
      assert forall x :: x in LeftSeq(l.up) || x in Inorder(l.left) ==> x in rest;
      StoredFrame(h, h', l.left);
      LeftFrame(h, h', d, l.up);
    }
  }

  /** SPLAY_LINKLEFT */
  lemma LinkLeftStep(h: Heap, d: SplayNode, root: SplayNode?, l: Lefts, m: Tree, r: Rights)
    requires Split(h, d, root, l, m, r) && m.Node?
    ensures RightHole(d, r) in h
    ensures Split(WroteLeft(h, RightHole(d, r), m.item), d, Root(m.left), l, m.left, RightLink(r, m.item, m.right))
  {
    SplitApart(h, d, root, l, m, r);
    var h' := WroteLeft(h, RightHole(d, r), m.item);
    LinkKeepsOrder(l, m, r);
    NodeApart(m);
    StoredFrame(h, h', m.left);
    StoredFrame(h, h', m.right);
    LeftFrame(h, h', d, l);
    RightHoleWritten(h, h', d, r, m.item);
  }

  /** SPLAY_LINKRIGHT */
  lemma LinkRightStep(h: Heap, d: SplayNode, root: SplayNode?, l: Lefts, m: Tree, r: Rights)
    requires Split(h, d, root, l, m, r) && m.Node?
    ensures LeftHole(d, l) in h
    ensures Split(WroteRight(h, LeftHole(d, l), m.item), d, Root(m.right), LeftLink(l, m.left, m.item), m.right, r)
  {
    SplitApart(h, d, root, l, m, r);
    var h' := WroteRight(h, LeftHole(d, l), m.item);
    LinkKeepsOrder(l, m, r);
    NodeApart(m);
    StoredFrame(h, h', m.left);
    StoredFrame(h, h', m.right);
    RightFrame(h, h', d, r);
    LeftHoleWritten(h, h', d, l, m.item);
  }

  /** With the hole filled the left tree is a stored tree, linked from the dummy. */
  lemma {:induction false} FillLeftStored(h: Heap, d: SplayNode, l: Lefts, t: Tree)
    requires LeftStored(h, d, l) && Stored(h, t)
    requires LeftHole(d, l) in h && h[LeftHole(d, l)].right == Root(t)
    ensures d in h && Stored(h, FillLeft(l, t)) && h[d].right == Root(FillLeft(l, t))
  {
    if l.LeftLink? {
      FillLeftStored(h, d, l.up, Node(l.left, l.item, t));
    }
  }

  lemma {:induction false} FillRightStored(h: Heap, d: SplayNode, r: Rights, t: Tree)
    requires RightStored(h, d, r) && Stored(h, t)
    requires RightHole(d, r) in h && h[RightHole(d, r)].left == Root(t)
    ensures d in h && Stored(h, FillRight(r, t)) && h[d].left == Root(FillRight(r, t))
  {
    if r.RightLink? {
      FillRightStored(h, d, r.up, Node(t, r.item, r.right));
    }
  }

  /** The first two writes of SPLAY_ASSEMBLE. */
  lemma FillHoles(h: Heap, h': Heap, d: SplayNode, root: SplayNode?, l: Lefts, m: Tree, r: Rights)
    requires Split(h, d, root, l, m, r) && m.Node?
    requires LeftHole(d, l) in h && RightHole(d, r) in h
    requires h' == WroteLeft(WroteRight(h, LeftHole(d, l), Root(m.left)), RightHole(d, r), Root(m.right))
    ensures d in h' && h'[d] == Links(Root(FillRight(r, m.right)), Root(FillLeft(l, m.left)))
    ensures Stored(h', FillLeft(l, m.left)) && Stored(h', FillRight(r, m.right))
  {
    var h1 := WroteRight(h, LeftHole(d, l), Root(m.left));
    SplitApart(h, d, root, l, m, r);
    NodeApart(m);
    LeftHoleWritten(h, h1, d, l, Root(m.left));
    RightFrame(h, h1, d, r);
    StoredFrame(h, h1, m.left);
    StoredFrame(h, h1, m.right);
    RightHoleWritten(h1, h', d, r, Root(m.right));
    LeftFrame(h1, h', d, l);
    StoredFrame(h1, h', m.left);
    StoredFrame(h1, h', m.right);
    FillLeftStored(h', d, l, m.left);
    FillRightStored(h', d, r, m.right);
  }

  /** SPLAY_ASSEMBLE */
  lemma AssembleStep(h: Heap, h': Heap, d: SplayNode, root: SplayNode?, l: Lefts, m: Tree, r: Rights)
    requires Split(h, d, root, l, m, r) && m.Node? && LeftHole(d, l) in h && RightHole(d, r) in h && m.item in h
    requires h' == WroteLeft(WroteRight(h, LeftHole(d, l), Root(m.left)), RightHole(d, r), Root(m.right))
    ensures d in h' && m.item in h'
    ensures Stored(WroteRight(WroteLeft(h', m.item, h'[d].right), m.item, h'[d].left), Assembled(l, m, r))
  {
    FillHoles(h, h', d, root, l, m, r);
    var h2 := WroteRight(WroteLeft(h', m.item, h'[d].right), m.item, h'[d].left);
    SplitApart(h, d, root, l, m, r);
    NodeApart(m);
    FillLeftInorder(l, m.left);
    FillRightInorder(r, m.right);
    StoredFrame(h', h2, FillLeft(l, m.left));
    StoredFrame(h', h2, FillRight(r, m.right));
  }
}
