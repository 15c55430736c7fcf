/** One turn of each fix-up loop, in memory: the writes of a loop body take a stored
    tree to the stored tree that RbFixup predicts. */
module RbTurns {
  import opened RbModel
  import opened RbFixup
  import opened RbHeap

  /** The links around the focus, as the loop bodies read them. */
  lemma LinksAbove(h: Heap, root: Item?, path: Path, t: Tree)
    requires Holds(h, root, Plug(path, t)) && !path.Top?
    ensures path.item in h && (t.Node? ==> t.item in h && h[t.item].parent == path.item)
    ensures h[path.item] ==
      if path.Left? then Cell(Root(t), Root(path.right), Owner(path.up), path.color)
      else Cell(Root(path.left), Root(t), Owner(path.up), path.color)
    ensures t.Node? ==> (h[path.item].left == t.item <==> path.Left?) && (h[path.item].right == t.item <==> path.Right?)
    ensures var s := Sibling(path);
      s.Node? ==> s.item in h && h[s.item] == Cell(Root(s.left), Root(s.right), path.item, s.color)
  {
    HoldsZip(h, root, path, t);
    assert Stored(h, Sibling(path), path.item);
    if t.Node? {
      LinkOfFocus(h, root, path, t);
    }
  }

  /** The upward links, as the walks read them. */
  lemma UpLinks(h: Heap, root: Item?, path: Path, t: Tree)
    requires Holds(h, root, Plug(path, t)) && t.Node?
    ensures t.item in h && h[t.item].parent == Owner(path)
    ensures !path.Top? ==>
      path.item in h && (h[path.item].left == t.item <==> path.Left?) && (h[path.item].right == t.item <==> path.Right?)
  {
    LinksOfSubtree(h, root, path, t);
    if !path.Top? {
      LinksAbove(h, root, path, t);
    }
  }

  lemma HoldsBasics(h: Heap, root: Item?, t: Tree)
    requires Holds(h, root, t)
    ensures h.Keys == Elems(t) && root == Root(t)
  {
  }

  lemma LinksOfSubtree(h: Heap, root: Item?, path: Path, t: Tree)
    requires Holds(h, root, Plug(path, t)) && t.Node?
    ensures t.item in h && h[t.item] == Cell(Root(t.left), Root(t.right), Owner(path), t.color)
    ensures root != null && (root == t.item <==> path.Top?)
  {
    HoldsZip(h, root, path, t);
    RootOfZip(h, root, path, t);
  }

  /** The nephews' colours, as RB_REMOVE_COLOR tests them. */
  lemma Nephews(h: Heap, root: Item?, path: Path, t: Tree)
    requires Holds(h, root, Plug(path, t)) && !path.Top? && Sibling(path).Node?
    ensures var s := Sibling(path);
      && s.item in h && h[s.item].left == Root(s.left) && h[s.item].right == Root(s.right)
      && (s.left.Node? ==> s.left.item in h && h[s.left.item].color == s.left.color)
      && (s.right.Node? ==> s.right.item in h && h[s.right.item].color == s.right.color)
  {
    LinksAbove(h, root, path, t);
    HoldsZip(h, root, path, t);
    assert Stored(h, Sibling(path), path.item);
    assert Stored(h, Sibling(path).left, Sibling(path).item) && Stored(h, Sibling(path).right, Sibling(path).item);
  }

  /** What a fix-up loop sees of the parent of its current node. */
  lemma ParentOfFocus(h: Heap, root: Item?, path: Path, t: Tree)
    requires Holds(h, root, Plug(path, t)) && t.Node?
    ensures t.item in h && h[t.item].parent == Owner(path)
    ensures !path.Top? ==> path.item in h && h[path.item].color == path.color
  {
    LinksOfSubtree(h, root, path, t);
    if !path.Top? {
      LinksAbove(h, root, path, t);
    }
  }

  /** What the loop test of RB_REMOVE_COLOR sees; the focus may be empty. */
  lemma FocusInMemory(h: Heap, root: Item?, path: Path, t: Tree)
    requires Holds(h, root, Plug(path, t))
    ensures t.Node? ==> t.item in h && h[t.item].color == t.color && h[t.item].parent == Owner(path)
    ensures root == Root(t) <==> path.Top?
  {
    HoldsZip(h, root, path, t);
    RootOfZip(h, root, path, t);
    if t.Node? {
      assert t.item in Elems(t);
    }
  }

  lemma {:induction false} RootOfZip(h: Heap, root: Item?, path: Path, t: Tree)
    requires Zip(h, root, path, t)
    ensures root == Root(Plug(path, t))
    ensures path.Top? ==> root == Root(t)
    ensures !path.Top? ==> root != null && root in PathElems(path) && root !in Elems(t)
  {
    if !path.Top? {
      ZipRise(h, root, path, t);
      RootOfZip(h, root, path.up, Rise(path, t));
    }
  }

  // ----- single writes at a focus and its children

  lemma PaintFocus(h: Heap, root: Item?, path: Path, t: Tree, c: Color)
    requires t.Node? && Holds(h, root, Plug(path, t))
    ensures t.item in h && Holds(Colored(h, t.item, c), root, Plug(path, t.(color := c)))
  {
    HoldsZip(h, root, path, t);
    Recolor(h, root, path, t, c);
    HoldsZip(Colored(h, t.item, c), root, path, t.(color := c));
  }

  lemma PaintLeft(h: Heap, root: Item?, path: Path, t: Tree, c: Color)
    requires t.Node? && t.left.Node? && Holds(h, root, Plug(path, t))
    ensures t.left.item in h && Holds(Colored(h, t.left.item, c), root, Plug(path, t.(left := t.left.(color := c))))
  {
    PaintFocus(h, root, Left(path, t.color, t.item, t.right), t.left, c);
  }

  lemma PaintRight(h: Heap, root: Item?, path: Path, t: Tree, c: Color)
    requires t.Node? && t.right.Node? && Holds(h, root, Plug(path, t))
    ensures t.right.item in h && Holds(Colored(h, t.right.item, c), root, Plug(path, t.(right := t.right.(color := c))))
  {
    PaintFocus(h, root, Right(path, t.color, t.item, t.left), t.right, c);
  }

  lemma MayTurnLeft(h: Heap, root: Item?, path: Path, t: Tree)
    requires t.Node? && t.right.Node? && Holds(h, root, Plug(path, t))
    ensures CanRotateLeft(h, t.item)
  {
    HoldsZip(h, root, path, t);
    ZipCanRotateLeft(h, root, path, t);
  }

  lemma MayTurnRight(h: Heap, root: Item?, path: Path, t: Tree)
    requires t.Node? && t.left.Node? && Holds(h, root, Plug(path, t))
    ensures CanRotateRight(h, t.item)
  {
    HoldsZip(h, root, path, t);
    ZipCanRotateRight(h, root, path, t);
  }

  /** RB_ROTATE_LEFT at the root of the focus. */
  lemma TurnLeft(h: Heap, h': Heap, root: Item?, root': Item?, path: Path, t: Tree)
    requires t.Node? && t.right.Node? && Holds(h, root, Plug(path, t))
    requires LeftRotation(h, h', root, root', t.item)
    ensures Holds(h', root', Plug(path, RotatedLeft(t)))
  {
    HoldsZip(h, root, path, t);
    RotateLeftZip(h, h', root, root', path, t);
    HoldsZip(h', root', path, RotatedLeft(t));
  }

  /** RB_ROTATE_RIGHT at the root of the focus. */
  lemma TurnRight(h: Heap, h': Heap, root: Item?, root': Item?, path: Path, t: Tree)
    requires t.Node? && t.left.Node? && Holds(h, root, Plug(path, t))
    requires RightRotation(h, h', root, root', t.item)
    ensures Holds(h', root', Plug(path, RotatedRight(t)))
  {
    HoldsZip(h, root, path, t);
    RotateRightZip(h, h', root, root', path, t);
    HoldsZip(h', root', path, RotatedRight(t));
  }

  // ----- recolourings of a whole turn

  /** Parent and uncle black, grandparent red. */
  lemma PaintFamily(h: Heap, root: Item?, path: Path, t: Tree, u: Item)
    requires Holds(h, root, Plug(path, t)) && !path.Top? && !path.up.Top?
    requires Sibling(path.up).Node? && u == Sibling(path.up).item
    ensures u in h && path.item in h && path.up.item in h
    ensures Holds(Colored(Colored(Colored(h, u, Black), path.item, Black), path.up.item, Red), root,
                  Plug(path.up.up, BlackChildren(Rise(path.up, Rise(path, t)))))
  {
    var f, up := Rise(path.up, Rise(path, t)), path.up.up;
    if path.up.Left? {
      PaintRight(h, root, up, f, Black);
      var f1 := f.(right := f.right.(color := Black));
      var h1 := Colored(h, u, Black);
      PaintLeft(h1, root, up, f1, Black);
      PaintFocus(Colored(h1, path.item, Black), root, up, f1.(left := f1.left.(color := Black)), Red);
    } else {
      PaintLeft(h, root, up, f, Black);
      var f1 := f.(left := f.left.(color := Black));
      var h1 := Colored(h, u, Black);
      PaintRight(h1, root, up, f1, Black);
      PaintFocus(Colored(h1, path.item, Black), root, up, f1.(right := f1.right.(color := Black)), Red);
    }
  }

  /** RB_SET_BLACKRED at a node's left child and the node. */
  lemma PaintLeftEdge(h: Heap, root: Item?, path: Path, t: Tree)
    requires t.Node? && t.left.Node? && Holds(h, root, Plug(path, t))
    ensures t.left.item in h && t.item in h
    ensures Holds(Colored(Colored(h, t.left.item, Black), t.item, Red), root,
                  Plug(path, Node(Red, t.left.(color := Black), t.item, t.right)))
  {
    PaintLeft(h, root, path, t, Black);
    PaintFocus(Colored(h, t.left.item, Black), root, path, t.(left := t.left.(color := Black)), Red);
  }

  lemma PaintRightEdge(h: Heap, root: Item?, path: Path, t: Tree)
    requires t.Node? && t.right.Node? && Holds(h, root, Plug(path, t))
    ensures t.right.item in h && t.item in h
    ensures Holds(Colored(Colored(h, t.right.item, Black), t.item, Red), root,
                  Plug(path, Node(Red, t.left, t.item, t.right.(color := Black))))
  {
    PaintRight(h, root, path, t, Black);
    PaintFocus(Colored(h, t.right.item, Black), root, path, t.(right := t.right.(color := Black)), Red);
  }
}
