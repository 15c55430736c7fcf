/** The top-down splay operations of network/include/xy_rbtree.h on nodes in memory. */
module SplayTree {
  import opened SplayModel

  /** Where name_SPLAY leaves the tree: at the root lies the sought key, or else its
      predecessor or its successor among the keys. */
  ghost predicate Closest(t: Tree, key: int) {
    && t.Node?
    && (key < t.item.key ==> forall x :: x in Inorder(t.left) ==> x.key < key)
    && (t.item.key < key ==> forall x :: x in Inorder(t.right) ==> key < x.key)
  }

  /** Read off the in-order sequence: with the sought key absent, the root is next to the gap. */
  lemma ClosestIsNeighbour(t: Tree, key: int)
    requires Sorted(Inorder(t)) && Closest(t, key)
    ensures var s, i := Inorder(t), |Inorder(t.left)|;
      && i < |s| && s[i] == t.item
      && (key < s[i].key ==> (i > 0 ==> s[i - 1].key < key) && forall x :: x in s ==> x.key != key)
      && (s[i].key < key ==> (i + 1 < |s| ==> key < s[i + 1].key) && forall x :: x in s ==> x.key != key)
  {
    SortedNode(t);
    var s, i := Inorder(t), |Inorder(t.left)|;
    if i > 0 {
      assert s[i - 1] == Inorder(t.left)[i - 1];
    }
    if i + 1 < |s| {
      assert s[i + 1] == Inorder(t.right)[0];
    }
  }

  /** The outer parts lie on their sides of the sought key. */
  ghost predicate Around(l: Lefts, r: Rights, key: int) {
    && (forall x :: x in LeftSeq(l) ==> x.key < key)
    && (forall x :: x in RightSeq(r) ==> key < x.key)
  }

  /** The loop may stop when there is nothing left to search on the key's side. */
  ghost predicate Narrow(m: Tree, key: int) {
    m.Node? && (key < m.item.key ==> m.left.Leaf?) && (m.item.key < key ==> m.right.Leaf?)
  }

  lemma AssembledClosest(l: Lefts, m: Tree, r: Rights, key: int)
    requires Around(l, r, key) && Narrow(m, key)
    ensures Closest(Assembled(l, m, r), key)
  {
    FillLeftInorder(l, m.left);
    FillRightInorder(r, m.right);
  }

  lemma AroundLinkLeft(l: Lefts, m: Tree, r: Rights, key: int)
    requires Around(l, r, key) && m.Node? && Sorted(Inorder(m)) && key < m.item.key
    ensures Around(l, RightLink(r, m.item, m.right), key)
  {
    SortedNode(m);
  }

  lemma AroundLinkRight(l: Lefts, m: Tree, r: Rights, key: int)
    requires Around(l, r, key) && m.Node? && Sorted(Inorder(m)) && m.item.key < key
    ensures Around(LeftLink(l, m.left, m.item), r, key)
  {
    SortedNode(m);
  }

  /** The loop state of name_SPLAY: the three parts are in memory, in order, and the sought
      key can only be in the middle. */
  ghost predicate Searching(h: Heap, root: SplayNode?, node: SplayNode, left: SplayNode, right: SplayNode,
                            l: Lefts, m: Tree, r: Rights, s: seq<SplayNode>, key: int) {
    && Split(h, node, root, l, m, r) && m.Node? && Whole(l, m, r) == s && Around(l, r, key)
    && left == LeftHole(node, l) && right == RightHole(node, r)
  }

  lemma SearchStarts(h: Heap, root: SplayNode?, node: SplayNode, t: Tree, key: int)
    requires Stored(h, t) && t.Node? && root == Root(t) && Sorted(Inorder(t)) && node !in Inorder(t)
    requires h.Keys == Items(Inorder(t)) + {node}
    ensures Searching(h, root, node, node, node, LeftEnd, t, RightEnd, Inorder(t), key)
  {
    assert Whole(LeftEnd, t, RightEnd) == Inorder(t);
  }

  /** What the loop reads at the root. */
  lemma SearchReads(h: Heap, root: SplayNode?, node: SplayNode, left: SplayNode, right: SplayNode,
                    l: Lefts, m: Tree, r: Rights, s: seq<SplayNode>, key: int)
    requires Searching(h, root, node, left, right, l, m, r, s, key)
    ensures m.Node? && root == m.item && m.item in h && h[m.item] == Links(Root(m.left), Root(m.right))
      && Sorted(Inorder(m))
  {
    SortedThree(l, m, r);
  }

  lemma SearchEnds(h: Heap, root: SplayNode?, node: SplayNode, left: SplayNode, right: SplayNode,
                   l: Lefts, m: Tree, r: Rights, s: seq<SplayNode>, key: int)
    requires Searching(h, root, node, left, right, l, m, r, s, key) && (Narrow(m, key) || key == m.item.key)
    ensures m.Node? && Split(h, node, root, l, m, r) && left == LeftHole(node, l) && right == RightHole(node, r)
    ensures Inorder(Assembled(l, m, r)) == s && Root(Assembled(l, m, r)) == m.item && Closest(Assembled(l, m, r), key)
  {
    AssembledInorder(l, m, r);
    AssembledClosest(l, m, r, key);
  }

  /** A tree is stored in any part of memory that holds its nodes. */
  lemma StoredWithin(nodes: set<SplayNode>, items: set<SplayNode>, t: Tree)
    requires Stored(Snapshot(nodes), t) && Items(Inorder(t)) <= items
    ensures Stored(Snapshot(items), t)
  {
    StoredFrame(Snapshot(nodes), Snapshot(items), t);
  }

  // ----- SPLAY_INSERT and SPLAY_REMOVE on a splayed tree

  ghost function WithBefore(t: Tree, elm: SplayNode): Tree
    requires t.Node?
  {
    Node(t.left, elm, Node(Leaf, t.item, t.right))
  }

  ghost function WithAfter(t: Tree, elm: SplayNode): Tree
    requires t.Node?
  {
    Node(Node(t.left, t.item, Leaf), elm, t.right)
  }

  /** Only the root's links changed, and `elm` is new. */
  ghost predicate RootWritten(h: Heap, h': Heap, t: Tree, elm: SplayNode)
    requires t.Node?
  {
    && h'.Keys == h.Keys + {elm} && elm !in h && t.item in h
    && forall x :: x in h && x != t.item ==> h'[x] == h[x]
  }

  lemma SortedFour(a: seq<SplayNode>, x: SplayNode, y: SplayNode, b: seq<SplayNode>)
    requires Sorted(a) && Sorted(b) && x.key < y.key
    requires (forall z :: z in a ==> z.key < x.key) && (forall z :: z in b ==> y.key < z.key)
    ensures Sorted(a + [x] + [y] + b)
    ensures Items(a + [x] + [y] + b) == Items(a) + {x, y} + Items(b)
  {
  }

  lemma FourInorder(a: seq<SplayNode>, x: SplayNode, y: SplayNode, b: seq<SplayNode>)
    ensures a + [x] + ([] + [y] + b) == a + [x] + [y] + b
    ensures (a + [x] + []) + [y] + b == a + [x] + [y] + b
    ensures Items(a + [x] + b) == Items(a) + {x} + Items(b)
  {
  }

  lemma WithBeforeInorder(t: Tree, elm: SplayNode)
    requires t.Node? && Sorted(Inorder(t)) && Closest(t, elm.key) && elm.key < t.item.key
    ensures Sorted(Inorder(WithBefore(t, elm)))
    ensures Items(Inorder(WithBefore(t, elm))) == Items(Inorder(t)) + {elm}
  {
    hide Items;
    var a, b := Inorder(t.left), Inorder(t.right);
    SortedNode(t);
    SortedFour(a, elm, t.item, b);
    FourInorder(a, elm, t.item, b);
    FourInorder(a, t.item, elm, b);
    assert Inorder(Node(Leaf, t.item, t.right)) == [] + [t.item] + b;
  }

  lemma WithAfterInorder(t: Tree, elm: SplayNode)
    requires t.Node? && Sorted(Inorder(t)) && Closest(t, elm.key) && t.item.key < elm.key
    ensures Sorted(Inorder(WithAfter(t, elm)))
    ensures Items(Inorder(WithAfter(t, elm))) == Items(Inorder(t)) + {elm}
  {
    hide Items;
    var a, b := Inorder(t.left), Inorder(t.right);
    SortedNode(t);
    SortedFour(a, t.item, elm, b);
    FourInorder(a, t.item, elm, b);
    assert Inorder(Node(t.left, t.item, Leaf)) == a + [t.item] + [];
  }

  lemma InsertStored(h: Heap, h': Heap, t: Tree, elm: SplayNode)
    requires Stored(h, t) && t.Node? && Sorted(Inorder(t)) && h.Keys == Items(Inorder(t)) && RootWritten(h, h', t, elm)
    ensures h'[elm] == Links(Root(t.left), t.item) && h'[t.item] == Links(null, Root(t.right)) ==>
      Stored(h', WithBefore(t, elm))
    ensures h'[elm] == Links(t.item, Root(t.right)) && h'[t.item] == Links(Root(t.left), null) ==>
      Stored(h', WithAfter(t, elm))
  {
    NodeApart(t);
    StoredFrame(h, h', t.left);
    StoredFrame(h, h', t.right);
  }

  lemma RootParts(t: Tree)
    requires t.Node? && Sorted(Inorder(t))
    ensures Sorted(Inorder(t.left)) && Sorted(Inorder(t.right)) && t.item in Inorder(t)
    ensures forall x :: x in Items(Inorder(t.left)) ==> x.key < t.item.key
    ensures forall x :: x in Items(Inorder(t.right)) ==> t.item.key < x.key
    ensures Items(Inorder(t)) - {t.item} == Items(Inorder(t.left)) + Items(Inorder(t.right))
    ensures forall x :: x in Items(Inorder(t)) && x != t.item ==> x.key != t.item.key
    ensures t.left.Leaf? ==> Items(Inorder(t.left)) == {}
    ensures forall x :: x in Items(Inorder(t.left)) ==> x !in Items(Inorder(t.right))
  {
    SortedNode(t);
  }

  /** What a stored tree's root links to, and where its subtrees are stored. */
  lemma StoredParts(nodes: set<SplayNode>, t: Tree)
    requires Stored(Snapshot(nodes), t) && t.Node? && nodes == Items(Inorder(t))
    ensures t.item in nodes && t.item.left == Root(t.left) && t.item.right == Root(t.right)
    ensures Stored(Snapshot(Items(Inorder(t.left))), t.left)
    ensures Stored(Snapshot(Items(Inorder(t.right))), t.right)
  {
    StoredWithin(nodes, Items(Inorder(t.left)), t.left);
    StoredWithin(nodes, Items(Inorder(t.right)), t.right);
  }

  lemma RootInorder(t: Tree)
    requires t.Node?
    ensures t.item in Inorder(t)
  {
  }

  lemma LastHasNoRight(t: Tree, key: int)
    requires Closest(t, key) && forall x :: x in Inorder(t) ==> x.key < key
    ensures t.right.Leaf?
  {
    var b := Inorder(t.right);
    assert t.item in Inorder(t) && forall x :: x in b ==> x in Inorder(t);
    if t.right.Node? {
      RootInorder(t.right);
      assert false;
    }
  }

  lemma JoinInorder(t: Tree, b: Tree, key: int)
    requires Sorted(Inorder(t)) && Closest(t, key) && Sorted(Inorder(b))
    requires forall x :: x in Inorder(t) ==> x.key < key
    requires forall x :: x in Inorder(b) ==> key < x.key
    ensures t.item !in Inorder(t.left) && (forall x :: x in Inorder(t.left) ==> x in Inorder(t))
    ensures t.item !in Inorder(b)
    ensures var s := Inorder(Node(t.left, t.item, b));
      s == Inorder(t) + Inorder(b) && Sorted(s) && Items(s) == Items(Inorder(t)) + Items(Inorder(b))
  {
    LastHasNoRight(t, key);
    SortedNode(t);
    RootInorder(t);
    assert Inorder(t) == Inorder(t.left) + [t.item] + [];
    assert Inorder(t) == Inorder(t.left) + [t.item];
    SortedJoin(Inorder(t), Inorder(b));
  }

  lemma StoredJoin(h1: Heap, hb: Heap, h': Heap, t: Tree, b: Tree, key: int)
    requires Stored(h1, t) && Sorted(Inorder(t)) && Closest(t, key) && h1.Keys == Items(Inorder(t))
    requires Stored(hb, b) && Sorted(Inorder(b)) && hb.Keys == Items(Inorder(b))
    requires forall x :: x in Inorder(t) ==> x.key < key
    requires forall x :: x in Inorder(b) ==> key < x.key
    requires h'.Keys == h1.Keys + hb.Keys
    requires t.item in h' && h'[t.item] == Links(Root(t.left), Root(b))
    requires forall x :: x in h1 && x != t.item ==> h'[x] == h1[x]
    requires forall x :: x in hb ==> h'[x] == hb[x]
    ensures Stored(h', Node(t.left, t.item, b)) && Sorted(Inorder(Node(t.left, t.item, b)))
    ensures h'.Keys == Items(Inorder(Node(t.left, t.item, b)))
  {
    hide Sorted, Inorder;
    JoinInorder(t, b, key);
    StoredFrame(h1, h', t.left);
    StoredFrame(hb, h', b);
  }

  class SplayTree {
    var root: SplayNode?
    ghost var items: set<SplayNode>
    ghost var tree: Tree

    ghost predicate Valid()
      reads this, items`left, items`right
    {
      && Stored(Snapshot(items), tree) && root == Root(tree)
      && Sorted(Inorder(tree)) && items == Items(Inorder(tree))
    }

    constructor ()
      ensures Valid() && items == {}
    {
      root, items, tree := null, {}, Leaf;
    }

    method SetLeft(ghost nodes: set<SplayNode>, x: SplayNode, v: SplayNode?)
      requires x in nodes
      modifies x`left
      ensures Snapshot(nodes) == WroteLeft(old(Snapshot(nodes)), x, v)
    {
      x.left := v;
    }

    method SetRight(ghost nodes: set<SplayNode>, x: SplayNode, v: SplayNode?)
      requires x in nodes
      modifies x`right
      ensures Snapshot(nodes) == WroteRight(old(Snapshot(nodes)), x, v)
    {
      x.right := v;
    }

    /** SPLAY_ROTATE_RIGHT(head, tmp, field) */
    method RotateRight(tmp: SplayNode, ghost nodes: set<SplayNode>, ghost d: SplayNode, ghost l: Lefts, ghost m: Tree,
      ghost r: Rights)
      requires Split(Snapshot(nodes), d, root, l, m, r) && m.Node? && m.left.Node? && tmp == m.left.item
      modifies this`root, nodes
      ensures Split(Snapshot(nodes), d, root, l, RotatedRight(m), r)
    {
      hide LeftStored, RightStored, Sorted;
      RotateRightStep(Snapshot(nodes), d, root, l, m, r);
      assert Stored(Snapshot(nodes), m.left);
      hide Split;
      SetLeft(nodes, root, tmp.right);
      SetRight(nodes, tmp, root);
      root := tmp;
    }

    /** SPLAY_ROTATE_LEFT(head, tmp, field) */
    method RotateLeft(tmp: SplayNode, ghost nodes: set<SplayNode>, ghost d: SplayNode, ghost l: Lefts, ghost m: Tree,
      ghost r: Rights)
      requires Split(Snapshot(nodes), d, root, l, m, r) && m.Node? && m.right.Node? && tmp == m.right.item
      modifies this`root, nodes
      ensures Split(Snapshot(nodes), d, root, l, RotatedLeft(m), r)
    {
      hide LeftStored, RightStored, Sorted;
      RotateLeftStep(Snapshot(nodes), d, root, l, m, r);
      assert Stored(Snapshot(nodes), m.right);
      hide Split;
      SetRight(nodes, root, tmp.left);
      SetLeft(nodes, tmp, root);
      root := tmp;
    }

    /** SPLAY_LINKLEFT(head, right, field) */
    method LinkLeft(right: SplayNode, ghost nodes: set<SplayNode>, ghost d: SplayNode, ghost l: Lefts, ghost m: Tree,
      ghost r: Rights)
      returns (right': SplayNode)
      requires Split(Snapshot(nodes), d, root, l, m, r) && m.Node? && right == RightHole(d, r)
      modifies this`root, nodes
      ensures Split(Snapshot(nodes), d, root, l, m.left, RightLink(r, m.item, m.right)) && right' == m.item
    {
      hide LeftStored, RightStored, Sorted;
      LinkLeftStep(Snapshot(nodes), d, root, l, m, r);
      SplitApart(Snapshot(nodes), d, root, l, m, r);
      SetLeft(nodes, right, root);
      right' := root;
      root := root.left;
    }

    /** SPLAY_LINKRIGHT(head, left, field) */
    method LinkRight(left: SplayNode, ghost nodes: set<SplayNode>, ghost d: SplayNode, ghost l: Lefts, ghost m: Tree,
      ghost r: Rights)
      returns (left': SplayNode)
      requires Split(Snapshot(nodes), d, root, l, m, r) && m.Node? && left == LeftHole(d, l)
      modifies this`root, nodes
      ensures Split(Snapshot(nodes), d, root, LeftLink(l, m.left, m.item), m.right, r) && left' == m.item
    {
      hide LeftStored, RightStored, Sorted;
      LinkRightStep(Snapshot(nodes), d, root, l, m, r);
      SplitApart(Snapshot(nodes), d, root, l, m, r);
      SetRight(nodes, left, root);
      left' := root;
      root := root.right;
    }

    /** SPLAY_ASSEMBLE(head, node, left, right, field) */
    method Assemble(node: SplayNode, left: SplayNode, right: SplayNode,
        ghost nodes: set<SplayNode>, ghost l: Lefts, ghost m: Tree, ghost r: Rights)
      requires Split(Snapshot(nodes), node, root, l, m, r) && m.Node? && left == LeftHole(node, l)
        && right == RightHole(node, r)
      modifies nodes
      ensures Stored(Snapshot(nodes), Assembled(l, m, r)) && root == m.item
    {
      ghost var h := Snapshot(nodes);
      SplitApart(h, node, root, l, m, r);
      assert h[root] == Links(Root(m.left), Root(m.right));
      hide Split, Stored, Sorted, Inorder, LeftSeq, RightSeq;
      SetRight(nodes, left, root.left);
      SetLeft(nodes, right, root.right);
      AssembleStep(h, Snapshot(nodes), node, root, l, m, r);
      SetLeft(nodes, root, node.right);
      SetRight(nodes, root, node.left);
    }

    /** The loop's branch for a key smaller than the root's: it goes one level down, or two, with a
        rotation, when the child's key is still larger. */
    method SearchLeft(key: int, node: SplayNode, left: SplayNode, right: SplayNode,
        ghost nodes: set<SplayNode>, ghost l: Lefts, ghost m: Tree, ghost r: Rights, ghost s: seq<SplayNode>)
      returns (right': SplayNode, stop: bool, ghost m': Tree, ghost r': Rights)
      requires Searching(Snapshot(nodes), root, node, left, right, l, m, r, s, key) && key < m.item.key
      modifies this`root, nodes
      ensures Searching(Snapshot(nodes), root, node, left, right', l, m', r', s, key)
      ensures if stop then Narrow(m', key) else Size(m') < Size(m)
      ensures m.left.Leaf? ==> stop && m' == m && r' == r
      ensures m.left.Node? && key >= m.left.item.key ==> !stop && m' == m.left && r' == RightLink(r, m.item, m.right)
      ensures m.left.Node? && key < m.left.item.key ==>
        var below := Node(m.left.right, m.item, m.right);
        if m.left.left.Leaf? then stop && m' == Node(Leaf, m.left.item, below) && r' == r
        else !stop && m' == m.left.left && r' == RightLink(r, m.left.item, below)
    {
      hide Split;
      SearchReads(Snapshot(nodes), root, node, left, right, l, m, r, s, key);
      right', stop, m', r' := right, true, m, r;
      var tmp := root.left;
      if tmp == null {
        return;
      }
      if key < tmp.key {
        RotateRight(tmp, nodes, node, l, m, r);
        m' := RotatedRight(m);
        RotateRightKeepsOrder(m);
        SearchReads(Snapshot(nodes), root, node, left, right, l, m', r, s, key);
        if root.left == null {
          return;
        }
      }
      AroundLinkLeft(l, m', r, key);
      LinkKeepsOrder(l, m', r);
      right' := LinkLeft(right, nodes, node, l, m', r);
      stop, m', r' := false, m'.left, RightLink(r, m'.item, m'.right);
    }

    /** The loop's branch for a key larger than the root's, the mirror image. */
    method SearchRight(key: int, node: SplayNode, left: SplayNode, right: SplayNode,
        ghost nodes: set<SplayNode>, ghost l: Lefts, ghost m: Tree, ghost r: Rights, ghost s: seq<SplayNode>)
      returns (left': SplayNode, stop: bool, ghost m': Tree, ghost l': Lefts)
      requires Searching(Snapshot(nodes), root, node, left, right, l, m, r, s, key) && m.item.key < key
      modifies this`root, nodes
      ensures Searching(Snapshot(nodes), root, node, left', right, l', m', r, s, key)
      ensures if stop then Narrow(m', key) else Size(m') < Size(m)
      ensures m.right.Leaf? ==> stop && m' == m && l' == l
      ensures m.right.Node? && key <= m.right.item.key ==> !stop && m' == m.right && l' == LeftLink(l, m.left, m.item)
      ensures m.right.Node? && key > m.right.item.key ==>
        var below := Node(m.left, m.item, m.right.left);
        if m.right.right.Leaf? then stop && m' == Node(below, m.right.item, Leaf) && l' == l
        else !stop && m' == m.right.right && l' == LeftLink(l, below, m.right.item)
    {
      hide Split;
      SearchReads(Snapshot(nodes), root, node, left, right, l, m, r, s, key);
      left', stop, m', l' := left, true, m, l;
      var tmp := root.right;
      if tmp == null {
        return;
      }
      if tmp.key < key {
        RotateLeft(tmp, nodes, node, l, m, r);
        m' := RotatedLeft(m);
        RotateLeftKeepsOrder(m);
        SearchReads(Snapshot(nodes), root, node, left, right, l, m', r, s, key);
        if root.right == null {
          return;
        }
      }
      AroundLinkRight(l, m', r, key);
      LinkKeepsOrder(l, m', r);
      left' := LinkRight(left, nodes, node, l, m', r);
      stop, m', l' := false, m'.right, LeftLink(l, m'.left, m'.item);
    }

    /** The loop of name_SPLAY. */
    method Search(key: int, node: SplayNode, ghost nodes: set<SplayNode>)
      returns (left: SplayNode, right: SplayNode, ghost l: Lefts, ghost m: Tree, ghost r: Rights)
      requires Searching(Snapshot(nodes), root, node, node, node, LeftEnd, tree, RightEnd, Inorder(tree), key)
      modifies this`root, nodes
      ensures m.Node? && Split(Snapshot(nodes), node, root, l, m, r) && left == LeftHole(node, l)
        && right == RightHole(node, r)
      ensures var t := Assembled(l, m, r);
        Inorder(t) == Inorder(tree) && Root(t) == m.item && Closest(t, key)
    {
      ghost var s := Inorder(tree);
      left, right, l, m, r := node, node, LeftEnd, tree, RightEnd;
      hide Searching, Split, Sorted, Inorder, Narrow, Closest, Assembled;
      SearchReads(Snapshot(nodes), root, node, left, right, l, m, r, s, key);
      var stop := false;
      while !stop && key != root.key
        invariant Searching(Snapshot(nodes), root, node, left, right, l, m, r, s, key)
        invariant m.Node? && root == m.item
        invariant stop ==> Narrow(m, key)
        decreases !stop, Size(m)
      {
        if key < root.key {
          right, stop, m, r := SearchLeft(key, node, left, right, nodes, l, m, r, s);
        } else {
          left, stop, m, l := SearchRight(key, node, left, right, nodes, l, m, r, s);
        }
        SearchReads(Snapshot(nodes), root, node, left, right, l, m, r, s, key);
      }
      SearchEnds(Snapshot(nodes), root, node, left, right, l, m, r, s, key);
    }

    lemma SplayStarts(node: SplayNode, key: int)
      requires Valid() && root != null && node !in items
      ensures Searching(Snapshot(items + {node}), root, node, node, node, LeftEnd, tree, RightEnd, Inorder(tree), key)
    {
      StoredWithin(items, items + {node}, tree);
      SearchStarts(Snapshot(items + {node}), root, node, tree, key);
    }

    lemma SplayEnds(nodes: set<SplayNode>, s: seq<SplayNode>)
      requires Stored(Snapshot(nodes), tree) && root == Root(tree)
      requires Inorder(tree) == s && Sorted(s) && items == Items(s)
      ensures Valid()
    {
      StoredWithin(nodes, items, tree);
    }

    /** name_SPLAY: brings the node closest to `key` to the root and keeps the in-order sequence. */
    method Splay(key: int)
      requires Valid() && root != null
      modifies this`root, this`tree, items
      ensures Valid() && items == old(items) && Inorder(tree) == old(Inorder(tree)) && Closest(tree, key)
    {
      hide Searching, Split, Closest, Stored, Inorder, Sorted, Items, LeftHole, RightHole, Snapshot, Root;
      ghost var s := Inorder(tree);
      var node := new SplayNode(key);
      ghost var nodes := items + {node};
      SplayStarts(node, key);
      ghost var l, m, r;
      var left, right;
      left, right, l, m, r := Search(key, node, nodes);
      ghost var t := Assembled(l, m, r);
      assert Inorder(t) == s && Root(t) == m.item && Closest(t, key);
      Assemble(node, left, right, nodes, l, m, r);
      tree := t;
      SplayEnds(nodes, s);
    }

    /** name_SPLAY_FIND */
    method Find(key: int) returns (r: SplayNode?)
      requires Valid()
      modifies this`root, this`tree, items
      ensures Valid() && items == old(items) && Inorder(tree) == old(Inorder(tree))
      ensures r != null ==> r in items && r.key == key
      ensures r == null ==> forall x :: x in items ==> x.key != key
    {
      if root == null {
        return null;
      }
      Splay(key);
      RootKey(key);
      return if root.key == key then root else null;
    }

    /** After a splay the root alone tells whether the key is there. */
    lemma RootKey(key: int)
      requires Valid() && Closest(tree, key)
      ensures root == tree.item && root in items && tree.item in items
      ensures root.key != key ==> forall x :: x in items ==> x.key != key
    {
      ClosestIsNeighbour(tree, key);
      assert tree.item in Inorder(tree);
    }

    /** name_SPLAY_INSERT: set insertion, unless an equal key is there. */
    method Insert(elm: SplayNode) returns (r: SplayNode?)
      requires Valid() && elm !in items
      modifies this, items, elm
      ensures Valid()
      ensures r == null ==> items == old(items) + {elm} && forall x :: x in old(items) ==> x.key != elm.key
      ensures r != null ==> items == old(items) && r in items && r.key == elm.key && Inorder(tree) == old(Inorder(tree))
    {
      if root == null {
        elm.left, elm.right := null, null;
        root := elm;
        items, tree := {elm}, Node(Leaf, elm, Leaf);
        return null;
      }
      Splay(elm.key);
      RootKey(elm.key);
      if elm.key < root.key {
        InsertBefore(elm);
      } else if root.key < elm.key {
        InsertAfter(elm);
      } else {
        return root;
      }
      return null;
    }

    method InsertBefore(elm: SplayNode)
      requires Valid() && root != null && elm !in items && Closest(tree, elm.key) && elm.key < root.key
      modifies this, items, elm
      ensures Valid() && items == old(items) + {elm}
    {
      hide Sorted, Closest;
      ghost var t, h := tree, Snapshot(items);
      elm.left := root.left;
      elm.right := root;
      root.left := null;
      root := elm;
      items, tree := items + {elm}, WithBefore(t, elm);
      WithBeforeInorder(t, elm);
      InsertStored(h, Snapshot(items), t, elm);
    }

    method InsertAfter(elm: SplayNode)
      requires Valid() && root != null && elm !in items && Closest(tree, elm.key) && root.key < elm.key
      modifies this, items, elm
      ensures Valid() && items == old(items) + {elm}
    {
      hide Sorted, Closest;
      ghost var t, h := tree, Snapshot(items);
      elm.right := root.right;
      elm.left := root;
      root.right := null;
      root := elm;
      items, tree := items + {elm}, WithAfter(t, elm);
      WithAfterInorder(t, elm);
      InsertStored(h, Snapshot(items), t, elm);
    }

    /** name_SPLAY_REMOVE: set removal by key; the argument is returned when its key was there. */
    method Remove(elm: SplayNode) returns (r: SplayNode?)
      requires Valid()
      modifies this, items
      ensures Valid()
      ensures items == set x | x in old(items) && x.key != elm.key
      ensures r == if exists x :: x in old(items) && x.key == elm.key then elm else null
    {
      if root == null {
        return null;
      }
      Splay(elm.key);
      RootKey(elm.key);
      if elm.key == root.key {
        RemoveRoot(elm.key);
        r := elm;
      } else {
        r := null;
      }
    }

    /** Removing the root joins its subtrees: the left one is splayed for the same key, which
        leaves its last node at the top, with no right child. */
    method RemoveRoot(key: int)
      requires Valid() && root != null && root.key == key
      modifies this, items
      ensures Valid() && items == old(items) - {old(root)}
      ensures old(root) in old(items) && forall x :: x in old(items) - {old(root)} ==> x.key != key
    {
      hide Sorted, Closest, Stored, Items, Inorder;
      ghost var t := tree;
      RootParts(t);
      StoredParts(items, t);
      if root.left == null {
        root := root.right;
        items, tree := Items(Inorder(t.right)), t.right;
      } else {
        var tmp := root.right;
        root := root.left;
        items, tree := Items(Inorder(t.left)), t.left;
        Join(key, tmp, t.right, Items(Inorder(t.right)));
      }
    }

    /** The left subtree, splayed for the removed key, has its last node at the root, with no
        right child: there the right subtree `b` goes. */
    method Join(key: int, tmp: SplayNode?, ghost b: Tree, ghost others: set<SplayNode>)
      requires Valid() && root != null && forall x :: x in items ==> x.key < key
      requires Stored(Snapshot(others), b) && Sorted(Inorder(b)) && others == Items(Inorder(b)) && tmp == Root(b)
      requires forall x :: x in others ==> key < x.key
      modifies this, items
      ensures Valid() && items == old(items) + others
    {
      hide Sorted, Closest, Stored, Inorder;
      Splay(key);
      RootKey(key);
      StoredParts(items, tree);
      ghost var t1, h1, hb := tree, Snapshot(items), Snapshot(others);
      root.right := tmp;
      items, tree := items + others, Node(t1.left, t1.item, b);
      StoredJoin(h1, hb, Snapshot(items), t1, b, key);
    }
  }
}
