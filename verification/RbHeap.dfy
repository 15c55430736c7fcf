/** How a tree sits in memory: snapshots of the RB_ENTRY fields, and what single
    field writes and rotations do to a zipper whose nodes they touch. */
module RbHeap {
  import opened RbModel
  import opened RbFixup

  datatype Cell = Cell(left: Item?, right: Item?, parent: Item?, color: Color)

  type Heap = map<Item, Cell>

  ghost function Snapshot(items: set<Item>): (h: Heap)
    reads items`left, items`right, items`parent, items`color
    ensures h.Keys == items
  {
    // the else branch makes the value depend on nothing outside the set
    map x | x in items :: if x in items then Cell(x.left, x.right, x.parent, x.color) else Cell(null, null, null, Red)
  }

  ghost function Root(t: Tree): Item? {
    if t.Leaf? then null else t.item
  }

  ghost function Owner(path: Path): Item? {
    if path.Top? then null else path.item
  }

  /** `t` is stored in `h`, and its root's parent link is `p`. */
  ghost predicate Stored(h: Heap, t: Tree, p: Item?) {
    match t
    case Leaf => true
    case Node(c, l, x, r) =>
      && x in h && h[x] == Cell(Root(l), Root(r), p, c)
      && Stored(h, l, x) && Stored(h, r, x)
  }

  /** `path` is stored in `h` below the tree root `root`, and `sub` is what its hole links to. */
  ghost predicate PathStored(h: Heap, root: Item?, path: Path, sub: Item?) {
    match path
    case Top => root == sub
    case Left(up, c, x, r) =>
      && x in h && h[x] == Cell(sub, Root(r), Owner(up), c)
      && Stored(h, r, x) && PathStored(h, root, up, x)
    case Right(up, c, x, l) =>
      && x in h && h[x] == Cell(Root(l), sub, Owner(up), c)
      && Stored(h, l, x) && PathStored(h, root, up, x)
  }

  /** The memory `h` with root pointer `root` holds exactly the tree Plug(path, t), seen from its focus. */
  ghost predicate Zip(h: Heap, root: Item?, path: Path, t: Tree) {
    && Distinct(t) && PathDistinct(path) && Elems(t) !! PathElems(path)
    && h.Keys == Elems(t) + PathElems(path)
    && Stored(h, t, Owner(path)) && PathStored(h, root, path, Root(t))
  }

  // ----- frames

  ghost predicate Agree(h: Heap, h': Heap, s: set<Item>) {
    forall x :: x in s && x in h ==> x in h' && h'[x] == h[x]
  }

  lemma {:induction false} StoredFrame(h: Heap, h': Heap, t: Tree, p: Item?)
    requires Stored(h, t, p) && Agree(h, h', Elems(t))
    ensures Stored(h', t, p)
  {
    if t.Node? {
      StoredFrame(h, h', t.left, t.item);
      StoredFrame(h, h', t.right, t.item);
    }
  }

  lemma {:induction false} PathFrame(h: Heap, h': Heap, root: Item?, path: Path, sub: Item?)
    requires PathStored(h, root, path, sub) && Agree(h, h', PathElems(path))
    ensures PathStored(h', root, path, sub)
  {
    match path
    case Top =>
    case Left(up, _, x, t) => StoredFrame(h, h', t, x); PathFrame(h, h', root, up, x);
    case Right(up, _, x, t) => StoredFrame(h, h', t, x); PathFrame(h, h', root, up, x);
  }

  // ----- moving the focus

  lemma ZipLeft(h: Heap, root: Item?, path: Path, t: Tree)
    requires t.Node?
    ensures Zip(h, root, path, t) <==> Zip(h, root, Left(path, t.color, t.item, t.right), t.left)
  {
    assert Elems(t.left) + (Elems(t.right) + {t.item} + PathElems(path)) == Elems(t) + PathElems(path);
  }

  lemma ZipRight(h: Heap, root: Item?, path: Path, t: Tree)
    requires t.Node?
    ensures Zip(h, root, path, t) <==> Zip(h, root, Right(path, t.color, t.item, t.left), t.right)
  {
    assert Elems(t.right) + (Elems(t.left) + {t.item} + PathElems(path)) == Elems(t) + PathElems(path);
  }

  lemma {:induction false} ZipTop(h: Heap, root: Item?, path: Path, t: Tree)
    ensures Zip(h, root, path, t) <==> Zip(h, root, Top, Plug(path, t))
  {
    match path
    case Top =>
    case Left(up, c, x, r) => ZipLeft(h, root, up, Node(c, t, x, r)); ZipTop(h, root, up, Node(c, t, x, r));
    case Right(up, c, x, l) => ZipRight(h, root, up, Node(c, l, x, t)); ZipTop(h, root, up, Node(c, l, x, t));
  }

  lemma ZipRise(h: Heap, root: Item?, path: Path, t: Tree)
    requires !path.Top?
    ensures Zip(h, root, path, t) <==> Zip(h, root, path.up, Rise(path, t))
  {
    if path.Left? {
      ZipLeft(h, root, path.up, Rise(path, t));
    } else {
      ZipRight(h, root, path.up, Rise(path, t));
    }
  }

  /** The memory `h` with root pointer `root` holds exactly the tree `t`. */
  ghost predicate Holds(h: Heap, root: Item?, t: Tree) {
    Distinct(t) && h.Keys == Elems(t) && Stored(h, t, null) && root == Root(t)
  }

  /** Any node may be put in focus. */
  lemma HoldsZip(h: Heap, root: Item?, path: Path, t: Tree)
    ensures Holds(h, root, Plug(path, t)) <==> Zip(h, root, path, t)
  {
    ZipTop(h, root, path, t);
  }

  // ----- writing

  ghost function Colored(h: Heap, x: Item, c: Color): Heap
    requires x in h
  {
    h[x := h[x].(color := c)]
  }

  lemma Recolor(h: Heap, root: Item?, path: Path, t: Tree, c: Color)
    requires t.Node? && Zip(h, root, path, t)
    ensures Zip(Colored(h, t.item, c), root, path, t.(color := c))
  {
    var h' := Colored(h, t.item, c);
    StoredFrame(h, h', t.left, t.item);
    StoredFrame(h, h', t.right, t.item);
    PathFrame(h, h', root, path, t.item);
  }

  ghost predicate Reparented(h: Heap, h': Heap, x: Item, q: Item?) {
    x in h && x in h' && h'[x] == h[x].(parent := q)
  }

  /** A stored subtree moves under another parent when its root's parent link is rewritten. */
  lemma Reparent(h: Heap, h': Heap, t: Tree, p: Item?, q: Item?)
    requires Stored(h, t, p) && Distinct(t)
    requires t.Node? ==> Reparented(h, h', t.item, q)
    requires AgreeBut(h, h', Elems(t), Root(t))
    ensures Stored(h', t, q)
  {
    if t.Node? {
      StoredFrame(h, h', t.left, t.item);
      StoredFrame(h, h', t.right, t.item);
    }
  }

  /** The one link that leads into the hole of `path` now leads to `sub'`. */
  ghost predicate Redirected(h: Heap, h': Heap, root: Item?, root': Item?, path: Path, sub': Item?) {
    match path
    case Top => root' == sub'
    case Left(_, _, x, _) => root' == root && x in h && x in h' && h'[x] == h[x].(left := sub')
    case Right(_, _, x, _) => root' == root && x in h && x in h' && h'[x] == h[x].(right := sub')
  }

  /** The hole of a path is redirected when the one link that leads to it is rewritten. */
  lemma Redirect(h: Heap, h': Heap, root: Item?, root': Item?, path: Path, sub: Item?, sub': Item?)
    requires PathStored(h, root, path, sub) && PathDistinct(path)
    requires Redirected(h, h', root, root', path, sub')
    requires AgreeBut(h, h', PathElems(path), Owner(path))
    ensures PathStored(h', root', path, sub')
  {
    match path
    case Top =>
    case Left(up, _, x, t) => StoredFrame(h, h', t, x); PathFrame(h, h', root, up, x);
    case Right(up, _, x, t) => StoredFrame(h, h', t, x); PathFrame(h, h', root, up, x);
  }

  // ----- rotating

  /** Nothing in `s` but `z` changes. */
  ghost predicate AgreeBut(h: Heap, h': Heap, s: set<Item>, z: Item?) {
    forall x :: x in s && x in h && x != z ==> x in h' && h'[x] == h[x]
  }

  /** The nodes RB_ROTATE_LEFT at `x` writes are there, and different: `x`, its right child `y`,
      the root `b` of the subtree that changes sides, and the parent `p` of `x`. */
  ghost predicate CanRotate(h: Heap, x: Item, y: Item?, b: Item?, p: Item?) {
    && x in h && y != null && y in h && x != y
    && (b != null ==> b in h && b != x && b != y)
    && (p != null ==> p in h && p != x && p != y && p != b && (h[p].left == x) != (h[p].right == x))
  }

  ghost predicate CanRotateLeft(h: Heap, x: Item) {
    && x in h && h[x].right != null && h[x].right in h
    && CanRotate(h, x, h[x].right, h[h[x].right].left, h[x].parent)
  }

  ghost predicate CanRotateRight(h: Heap, x: Item) {
    && x in h && h[x].left != null && h[x].left in h
    && CanRotate(h, x, h[x].left, h[h[x].left].right, h[x].parent)
  }

  /** A rotation writes those nodes, and nothing else. */
  ghost predicate RotationWrites(h: Heap, h': Heap, x: Item, y: Item, b: Item?, p: Item?) {
    && h'.Keys == h.Keys
    && forall z :: z in h && z != x && z != y && z != b && z != p ==> h'[z] == h[z]
  }

  /** The link to `x`, in its parent `p` or in the root pointer, now leads to `y`. */
  ghost predicate Relinked(h: Heap, h': Heap, root: Item?, root': Item?, p: Item?, x: Item, y: Item) {
    if p == null then root' == y else
      && root' == root && p in h && p in h'
      && h'[p] == if h[p].left == x then h[p].(left := y) else h[p].(right := y)
  }

  /** The effect of RB_ROTATE_LEFT at `x`. */
  ghost predicate LeftRotation(h: Heap, h': Heap, root: Item?, root': Item?, x: Item) {
    CanRotateLeft(h, x) &&
    var y, p := h[x].right, h[x].parent;
    var b := h[y].left;
    && RotationWrites(h, h', x, y, b, p)
    && h'[x] == Cell(h[x].left, b, y, h[x].color)
    && h'[y] == Cell(x, h[y].right, p, h[y].color)
    && (b != null ==> Reparented(h, h', b, x))
    && Relinked(h, h', root, root', p, x, y)
  }

  /** The effect of RB_ROTATE_RIGHT at `x`. */
  ghost predicate RightRotation(h: Heap, h': Heap, root: Item?, root': Item?, x: Item) {
    CanRotateRight(h, x) &&
    var y, p := h[x].left, h[x].parent;
    var b := h[y].right;
    && RotationWrites(h, h', x, y, b, p)
    && h'[x] == Cell(b, h[x].right, y, h[x].color)
    && h'[y] == Cell(h[y].left, x, p, h[y].color)
    && (b != null ==> Reparented(h, h', b, x))
    && Relinked(h, h', root, root', p, x, y)
  }

  /** Disjointness turns the list of written nodes into frames. */
  lemma RotationFrames(h: Heap, h': Heap, x: Item, y: Item, b: Item?, p: Item?,
                       sa: set<Item>, sb: set<Item>, sd: set<Item>, sp: set<Item>)
    requires RotationWrites(h, h', x, y, b, p)
    requires x !in sa && x !in sb && x !in sd && x !in sp && y !in sa && y !in sb && y !in sd && y !in sp
    requires b != null ==> b !in sa && b !in sd && b !in sp
    requires p != null ==> p !in sa && p !in sd && p !in sb
    ensures Agree(h, h', sa) && Agree(h, h', sd) && AgreeBut(h, h', sb, b) && AgreeBut(h, h', sp, p)
  {
  }

  lemma RotateLeftStored(h: Heap, h': Heap, t: Tree, p: Item?)
    requires t.Node? && t.right.Node? && Stored(h, t, p) && Distinct(t.right.left)
    requires Agree(h, h', Elems(t.left)) && Agree(h, h', Elems(t.right.right))
    requires AgreeBut(h, h', Elems(t.right.left), Root(t.right.left))
    requires t.item in h' && h'[t.item] == Cell(Root(t.left), Root(t.right.left), t.right.item, t.color)
    requires t.right.item in h' && h'[t.right.item] == Cell(t.item, Root(t.right.right), p, t.right.color)
    requires t.right.left.Node? ==> Reparented(h, h', t.right.left.item, t.item)
    ensures Stored(h', RotatedLeft(t), p)
  {
    assert Stored(h, t.right, t.item);
    StoredFrame(h, h', t.left, t.item);
    Reparent(h, h', t.right.left, t.right.item, t.item);
    StoredFrame(h, h', t.right.right, t.right.item);
  }

  lemma RotateRightStored(h: Heap, h': Heap, t: Tree, p: Item?)
    requires t.Node? && t.left.Node? && Stored(h, t, p) && Distinct(t.left.right)
    requires Agree(h, h', Elems(t.right)) && Agree(h, h', Elems(t.left.left))
    requires AgreeBut(h, h', Elems(t.left.right), Root(t.left.right))
    requires t.item in h' && h'[t.item] == Cell(Root(t.left.right), Root(t.right), t.left.item, t.color)
    requires t.left.item in h' && h'[t.left.item] == Cell(Root(t.left.left), t.item, p, t.left.color)
    requires t.left.right.Node? ==> Reparented(h, h', t.left.right.item, t.item)
    ensures Stored(h', RotatedRight(t), p)
  {
    assert Stored(h, t.left, t.item);
    StoredFrame(h, h', t.right, t.item);
    Reparent(h, h', t.left.right, t.left.item, t.item);
    StoredFrame(h, h', t.left.left, t.left.item);
  }

  lemma RotateLeftParts(t: Tree)
    requires t.Node? && t.right.Node? && Distinct(t)
    ensures Distinct(RotatedLeft(t)) && Elems(RotatedLeft(t)) == Elems(t)
    ensures var s := {t.item, t.right.item};
      s !! Elems(t.left) && s !! Elems(t.right.left) && s !! Elems(t.right.right) && s <= Elems(t)
    ensures Distinct(t.right.left) && Elems(t.right.left) !! Elems(t.left)
      && Elems(t.right.left) !! Elems(t.right.right)
  {
    assert Distinct(t.right);
  }

  lemma RotateRightParts(t: Tree)
    requires t.Node? && t.left.Node? && Distinct(t)
    ensures Distinct(RotatedRight(t)) && Elems(RotatedRight(t)) == Elems(t)
    ensures var s := {t.item, t.left.item};
      s !! Elems(t.right) && s !! Elems(t.left.right) && s !! Elems(t.left.left) && s <= Elems(t)
    ensures Distinct(t.left.right) && Elems(t.left.right) !! Elems(t.right) && Elems(t.left.right) !! Elems(t.left.left)
  {
    assert Distinct(t.left);
  }

  lemma LinkOfFocus(h: Heap, root: Item?, path: Path, t: Tree)
    requires Zip(h, root, path, t) && t.Node?
    ensures path.Top? ==> root == t.item
    ensures !path.Top? ==>
      path.item in PathElems(path) && path.item in h && (h[path.item].left == t.item) != (h[path.item].right == t.item)
    ensures !path.Top? ==> (path.Left? <==> h[path.item].left == t.item)
  {
  }

  lemma ZipCanRotateLeft(h: Heap, root: Item?, path: Path, t: Tree)
    requires t.Node? && t.right.Node? && Zip(h, root, path, t)
    ensures CanRotateLeft(h, t.item)
    ensures h[t.item] == Cell(Root(t.left), t.right.item, Owner(path), t.color)
    ensures h[t.right.item] == Cell(Root(t.right.left), Root(t.right.right), t.item, t.right.color)
  {
    RotateLeftParts(t);
    LinkOfFocus(h, root, path, t);
    assert Stored(h, t.right, t.item);
    if t.right.left.Node? {
      assert Stored(h, t.right.left, t.right.item) && t.right.left.item in Elems(t.right.left);
    }
  }

  lemma ZipCanRotateRight(h: Heap, root: Item?, path: Path, t: Tree)
    requires t.Node? && t.left.Node? && Zip(h, root, path, t)
    ensures CanRotateRight(h, t.item)
    ensures h[t.item] == Cell(t.left.item, Root(t.right), Owner(path), t.color)
    ensures h[t.left.item] == Cell(Root(t.left.left), Root(t.left.right), t.item, t.left.color)
  {
    RotateRightParts(t);
    LinkOfFocus(h, root, path, t);
    assert Stored(h, t.left, t.item);
    if t.left.right.Node? {
      assert Stored(h, t.left.right, t.left.item) && t.left.right.item in Elems(t.left.right);
    }
  }

  /** RB_ROTATE_LEFT at the focus turns the stored tree by RotatedLeft. */
  lemma RotateLeftZip(h: Heap, h': Heap, root: Item?, root': Item?, path: Path, t: Tree)
    requires t.Node? && t.right.Node? && Zip(h, root, path, t)
    requires LeftRotation(h, h', root, root', t.item)
    ensures Zip(h', root', path, RotatedLeft(t))
  {
    ZipCanRotateLeft(h, root, path, t);
    RotateLeftParts(t);
    LinkOfFocus(h, root, path, t);
    RotationFrames(h, h', t.item, t.right.item, Root(t.right.left), Owner(path),
      Elems(t.left), Elems(t.right.left), Elems(t.right.right), PathElems(path));
    RotateLeftStored(h, h', t, Owner(path));
    Redirect(h, h', root, root', path, t.item, t.right.item);
  }

  /** RB_ROTATE_RIGHT at the focus turns the stored tree by RotatedRight. */
  lemma RotateRightZip(h: Heap, h': Heap, root: Item?, root': Item?, path: Path, t: Tree)
    requires t.Node? && t.left.Node? && Zip(h, root, path, t)
    requires RightRotation(h, h', root, root', t.item)
    ensures Zip(h', root', path, RotatedRight(t))
  {
    ZipCanRotateRight(h, root, path, t);
    RotateRightParts(t);
    LinkOfFocus(h, root, path, t);
    RotationFrames(h, h', t.item, t.left.item, Root(t.left.right), Owner(path),
      Elems(t.right), Elems(t.left.right), Elems(t.left.left), PathElems(path));
    RotateRightStored(h, h', t, Owner(path));
    Redirect(h, h', root, root', path, t.item, t.left.item);
  }
}
