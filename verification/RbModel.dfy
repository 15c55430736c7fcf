/** The abstract red-black tree behind network/include/xy_rbtree.h: trees whose
    nodes carry the tree's elements, and zippers (a focused subtree plus the path
    back to the root), which are the loop states of the two fix-up loops. */
module RbModel {

  datatype Color = Red | Black

  /** xy_epoll_item, the type the red-black macros are instantiated for
      (network/include/xy_epoll.h:47-65).  `left`, `right`, `parent` and `color`
      are its RB_ENTRY; sock_cmp orders items by `sockId`. */
  class Item {
    const sockId: int
    var left: Item?
    var right: Item?
    var parent: Item?
    var color: Color
    var ready: bool
    var events: bv32
    var data: bv64

    constructor (sockId: int, events: bv32, data: bv64)
      ensures this.sockId == sockId && this.events == events && this.data == data && !ready
    {
      this.sockId, this.events, this.data, this.ready := sockId, events, data, false;
      this.left, this.right, this.parent, this.color := null, null, null, Red;
    }
  }

  datatype Tree = Leaf | Node(color: Color, left: Tree, item: Item, right: Tree)

  /** The way from a focused subtree up to the root: `Left(up, c, x, r)` says that
      the focus is the left child of `x`, whose right subtree is `r`. */
  datatype Path =
    | Top
    | Left(up: Path, color: Color, item: Item, right: Tree)
    | Right(up: Path, color: Color, item: Item, left: Tree)

  ghost function Plug(path: Path, t: Tree): Tree {
    match path
    case Top => t
    case Left(up, c, x, r) => Plug(up, Node(c, t, x, r))
    case Right(up, c, x, l) => Plug(up, Node(c, l, x, t))
  }

  ghost function Depth(path: Path): nat {
    if path.Top? then 0 else 1 + Depth(path.up)
  }

  // ----- elements and order

  ghost function Inorder(t: Tree): seq<Item> {
    match t
    case Leaf => []
    case Node(_, l, x, r) => Inorder(l) + [x] + Inorder(r)
  }

  ghost function Before(path: Path): seq<Item> {
    match path
    case Top => []
    case Left(up, _, _, _) => Before(up)
    case Right(up, _, x, l) => Before(up) + Inorder(l) + [x]
  }

  ghost function After(path: Path): seq<Item> {
    match path
    case Top => []
    case Left(up, _, x, r) => [x] + Inorder(r) + After(up)
    case Right(up, _, _, _) => After(up)
  }

  ghost predicate Sorted(s: seq<Item>) {
    forall i, j :: 0 <= i < j < |s| ==> s[i].sockId < s[j].sockId
  }

  ghost function Elems(t: Tree): set<Item> {
    match t
    case Leaf => {}
    case Node(_, l, x, r) => Elems(l) + {x} + Elems(r)
  }

  ghost function PathElems(path: Path): set<Item> {
    match path
    case Top => {}
    case Left(up, _, x, t) => Elems(t) + {x} + PathElems(up)
    case Right(up, _, x, t) => Elems(t) + {x} + PathElems(up)
  }

  /** No item occurs twice. */
  ghost predicate Distinct(t: Tree) {
    match t
    case Leaf => true
    case Node(_, l, x, r) =>
      && Distinct(l) && Distinct(r)
      && x !in Elems(l) && x !in Elems(r) && Elems(l) !! Elems(r)
  }

  ghost predicate PathDistinct(path: Path) {
    match path
    case Top => true
    case Left(up, _, x, t) =>
      && Distinct(t) && PathDistinct(up)
      && x !in Elems(t) && x !in PathElems(up) && Elems(t) !! PathElems(up)
    case Right(up, _, x, t) =>
      && Distinct(t) && PathDistinct(up)
      && x !in Elems(t) && x !in PathElems(up) && Elems(t) !! PathElems(up)
  }

  lemma Regroup(b: seq<Item>, l: seq<Item>, x: Item, r: seq<Item>, a: seq<Item>)
    ensures b + (l + [x] + r) + a == b + l + ([x] + r + a)
    ensures b + (l + [x] + r) + a == b + l + [x] + r + a
  {
  }

  lemma {:induction false} InorderPlug(path: Path, t: Tree)
    ensures Inorder(Plug(path, t)) == Before(path) + Inorder(t) + After(path)
  {
    match path
    case Top =>
    case Left(up, c, x, r) =>
      InorderPlug(up, Node(c, t, x, r));
      Regroup(Before(up), Inorder(t), x, Inorder(r), After(up));
    case Right(up, c, x, l) =>
      InorderPlug(up, Node(c, l, x, t));
      Regroup(Before(up), Inorder(l), x, Inorder(t), After(up));
  }

  /** Replacing the focus by a subtree with the same in-order sequence is invisible. */
  lemma SameInorder(path: Path, t: Tree, t': Tree)
    requires Inorder(t) == Inorder(t')
    ensures Inorder(Plug(path, t)) == Inorder(Plug(path, t'))
  {
    InorderPlug(path, t);
    InorderPlug(path, t');
  }

  lemma {:induction false} ElemsInorder(t: Tree, x: Item)
    ensures x in Elems(t) <==> x in Inorder(t)
  {
    if t.Node? {
      ElemsInorder(t.left, x);
      ElemsInorder(t.right, x);
    }
  }

  /** The search-tree order. */
  ghost predicate Bst(t: Tree) {
    match t
    case Leaf => true
    case Node(_, l, x, r) =>
      && Bst(l) && Bst(r)
      && (forall y :: y in Elems(l) ==> y.sockId < x.sockId)
      && (forall y :: y in Elems(r) ==> x.sockId < y.sockId)
  }

  lemma {:induction false} ElemsPlug(path: Path, t: Tree)
    ensures Elems(Plug(path, t)) == Elems(t) + PathElems(path)
  {
    match path
    case Top =>
    case Left(up, c, x, r) => ElemsPlug(up, Node(c, t, x, r));
    case Right(up, c, x, l) => ElemsPlug(up, Node(c, l, x, t));
  }

  lemma SortedJoin(l: seq<Item>, x: Item, r: seq<Item>)
    requires Sorted(l) && Sorted(r)
    requires forall y :: y in l ==> y.sockId < x.sockId
    requires forall y :: y in r ==> x.sockId < y.sockId
    ensures Sorted(l + [x] + r)
  {
  }

  /** The in-order sequence of a search tree strictly increases. */
  lemma {:induction false} BstSorted(t: Tree)
    requires Bst(t)
    ensures Sorted(Inorder(t))
  {
    if t.Node? {
      BstSorted(t.left);
      BstSorted(t.right);
      var l, r := Inorder(t.left), Inorder(t.right);
      forall y | y in l ensures y in Elems(t.left) { ElemsInorder(t.left, y); }
      forall y | y in r ensures y in Elems(t.right) { ElemsInorder(t.right, y); }
      SortedJoin(Inorder(t.left), t.item, Inorder(t.right));
    }
  }

  lemma SortedSplit(l: seq<Item>, x: Item, r: seq<Item>)
    requires Sorted(l + [x] + r)
    ensures Sorted(l) && Sorted(r)
    ensures forall y :: y in l ==> y.sockId < x.sockId
    ensures forall y :: y in r ==> x.sockId < y.sockId
  {
    var s := l + [x] + r;
    assert s[|l|] == x;
    assert forall i :: 0 <= i < |l| ==> l[i] == s[i] && s[i].sockId < s[|l|].sockId;
    assert forall i :: 0 <= i < |r| ==> r[i] == s[|l| + 1 + i] && s[|l|].sockId < s[|l| + 1 + i].sockId;
  }

  /** Conversely, a tree whose in-order sequence strictly increases is a search tree. */
  lemma {:induction false} SortedBst(t: Tree)
    requires Sorted(Inorder(t))
    ensures Bst(t)
  {
    if t.Node? {
      var l, r := Inorder(t.left), Inorder(t.right);
      SortedSplit(l, t.item, r);
      SortedBst(t.left);
      SortedBst(t.right);
      forall y | y in Elems(t.left) ensures y in l { ElemsInorder(t.left, y); }
      forall y | y in Elems(t.right) ensures y in r { ElemsInorder(t.right, y); }
    }
  }

  // ----- rotations

  ghost function RotatedLeft(t: Tree): Tree
    requires t.Node? && t.right.Node?
  {
    var Node(cx, a, x, Node(cy, b, y, d)) := t;
    Node(cy, Node(cx, a, x, b), y, d)
  }

  ghost function RotatedRight(t: Tree): Tree
    requires t.Node? && t.left.Node?
  {
    var Node(cx, Node(cy, a, y, b), x, d) := t;
    Node(cy, a, y, Node(cx, b, x, d))
  }

  lemma Reassociate(a: seq<Item>, x: Item, b: seq<Item>, y: Item, d: seq<Item>)
    ensures a + [x] + (b + [y] + d) == a + [x] + b + [y] + d
  {
  }

  /** Rotations keep the in-order sequence and undo each other. */
  lemma RotateLeftKeepsOrder(t: Tree)
    requires t.Node? && t.right.Node?
    ensures Inorder(RotatedLeft(t)) == Inorder(t) && RotatedRight(RotatedLeft(t)) == t
  {
    Reassociate(Inorder(t.left), t.item, Inorder(t.right.left), t.right.item, Inorder(t.right.right));
  }

  lemma RotateRightKeepsOrder(t: Tree)
    requires t.Node? && t.left.Node?
    ensures Inorder(RotatedRight(t)) == Inorder(t) && RotatedLeft(RotatedRight(t)) == t
  {
    Reassociate(Inorder(t.left.left), t.left.item, Inorder(t.left.right), t.item, Inorder(t.right));
  }

  // ----- balance

  ghost predicate IsRed(t: Tree) {
    t.Node? && t.color == Red
  }

  /** No red node has a red child. */
  ghost predicate NoRedRed(t: Tree) {
    match t
    case Leaf => true
    case Node(c, l, _, r) => NoRedRed(l) && NoRedRed(r) && (c == Red ==> !IsRed(l) && !IsRed(r))
  }

  /** Every way down from the root meets exactly `k` black nodes. */
  ghost predicate Balanced(t: Tree, k: nat) {
    match t
    case Leaf => k == 0
    case Node(Red, l, _, r) => Balanced(l, k) && Balanced(r, k)
    case Node(Black, l, _, r) => k > 0 && Balanced(l, k - 1) && Balanced(r, k - 1)
  }

  ghost predicate PathRed(path: Path) {
    !path.Top? && path.color == Red
  }

  /** No red-red edge on the path or in the subtrees hanging off it; the edge into
      the focus is not looked at. */
  ghost predicate PathNoRedRed(path: Path) {
    match path
    case Top => true
    case Left(up, c, _, r) => PathNoRedRed(up) && NoRedRed(r) && (c == Red ==> !IsRed(r) && !PathRed(up))
    case Right(up, c, _, l) => PathNoRedRed(up) && NoRedRed(l) && (c == Red ==> !IsRed(l) && !PathRed(up))
  }

  /** Plugging a tree of black height `k` into the focus balances the whole tree. */
  ghost predicate PathBalanced(path: Path, k: nat) {
    match path
    case Top => true
    case Left(up, c, _, r) => Balanced(r, k) && PathBalanced(up, if c == Black then k + 1 else k)
    case Right(up, c, _, l) => Balanced(l, k) && PathBalanced(up, if c == Black then k + 1 else k)
  }

  ghost predicate RedBlack(t: Tree) {
    NoRedRed(t) && !IsRed(t) && exists k: nat :: Balanced(t, k)
  }

  /** The root of the whole tree is black (or is the focus itself). */
  ghost predicate TopBlack(path: Path) {
    match path
    case Top => true
    case Left(up, c, _, _) => TopBlack(up) && (up.Top? ==> c == Black)
    case Right(up, c, _, _) => TopBlack(up) && (up.Top? ==> c == Black)
  }

  /** A zipper is red-black exactly when focus and path are and they fit. */
  ghost predicate ZipRedBlack(path: Path, t: Tree, k: nat) {
    && NoRedRed(t) && Balanced(t, k)
    && PathNoRedRed(path) && PathBalanced(path, k) && TopBlack(path)
    && (IsRed(t) ==> !PathRed(path) && !path.Top?)
  }

  lemma {:induction false} ZipPlug(path: Path, t: Tree, k: nat)
    requires ZipRedBlack(path, t, k)
    ensures RedBlack(Plug(path, t))
  {
    match path
    case Top =>
    case Left(up, c, x, r) => ZipPlug(up, Node(c, t, x, r), if c == Black then k + 1 else k);
    case Right(up, c, x, l) => ZipPlug(up, Node(c, l, x, t), if c == Black then k + 1 else k);
  }

  /** Conversely, every focus of a red-black tree is a red-black zipper. */
  lemma {:induction false} PlugZip(path: Path, t: Tree) returns (k: nat)
    requires RedBlack(Plug(path, t))
    ensures ZipRedBlack(path, t, k)
  {
    match path
    case Top => k :| Balanced(t, k);
    case Left(up, c, x, r) =>
      k := PlugZip(up, Node(c, t, x, r));
      if c == Black { k := k - 1; }
    case Right(up, c, x, l) =>
      k := PlugZip(up, Node(c, l, x, t));
      if c == Black { k := k - 1; }
  }
}
