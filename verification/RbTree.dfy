/** The red-black macros of network/include/xy_rbtree.h on linked nodes. */
module RbTree {
  import opened RbModel
  import opened RbHeap
  import opened RbFixup
  import opened RbTurns
  import opened RbOrder
  import opened RbEdits

  class RbTree {
    var root: Item?
    ghost var items: set<Item>
    ghost var tree: Tree

    /** A valid red-black search tree; the links are those of `tree`. */
    ghost predicate Valid()
      reads this, items`left, items`right, items`parent, items`color
    {
      Holds(Snapshot(items), root, tree) && Sorted(Inorder(tree)) && RedBlack(tree)
    }

    /** RB_INIT */
    constructor ()
      ensures Valid() && items == {}
    {
      root, items, tree := null, {}, Leaf;
      new;
      assert Balanced(tree, 0);
    }

    /** The nodes are linked up as the tree Plug(path, t). */
    ghost predicate At(path: Path, t: Tree)
      reads this, items`left, items`right, items`parent, items`color
    {
      Holds(Snapshot(items), root, Plug(path, t))
    }

    /** RB_ROTATE_LEFT */
    method RotateLeft(elm: Item)
      requires CanRotateLeft(Snapshot(items), elm)
      modifies this`root, items`left, items`right, items`parent
      ensures LeftRotation(old(Snapshot(items)), Snapshot(items), old(root), root, elm)
    {
      var tmp := elm.right;
      elm.right := tmp.left;
      if tmp.left != null {
        tmp.left.parent := elm;
      }
      tmp.parent := elm.parent;
      if tmp.parent != null {
        if elm == elm.parent.left {
          elm.parent.left := tmp;
        } else {
          elm.parent.right := tmp;
        }
      } else {
        root := tmp;
      }
      tmp.left := elm;
      elm.parent := tmp;
    }

    /** RB_ROTATE_RIGHT */
    method RotateRight(elm: Item)
      requires CanRotateRight(Snapshot(items), elm)
      modifies this`root, items`left, items`right, items`parent
      ensures RightRotation(old(Snapshot(items)), Snapshot(items), old(root), root, elm)
    {
      var tmp := elm.left;
      elm.left := tmp.right;
      if tmp.right != null {
        tmp.right.parent := elm;
      }
      tmp.parent := elm.parent;
      if tmp.parent != null {
        if elm == elm.parent.left {
          elm.parent.left := tmp;
        } else {
          elm.parent.right := tmp;
        }
      } else {
        root := tmp;
      }
      tmp.right := elm;
      elm.parent := tmp;
    }

    /** An assignment to RB_COLOR(elm) */
    method SetColor(elm: Item, c: Color)
      requires elm in items
      modifies elm`color
      ensures Snapshot(items) == Colored(old(Snapshot(items)), elm, c)
    {
      elm.color := c;
    }

    /** RB_SET_BLACKRED */
    method SetBlackRed(black: Item, red: Item)
      requires black in items && red in items
      modifies items`color
      ensures Snapshot(items) == Colored(Colored(old(Snapshot(items)), black, Black), red, Red)
    {
      SetColor(black, Black);
      SetColor(red, Red);
    }

    /** The inner grandchild case: a rotation at the parent, and the two swap names. */
    method InsertInnerLeft(elm: Item, parent: Item, ghost path: Path, ghost t: Tree, ghost k: nat)
      returns (ghost path': Path, ghost t': Tree)
      requires At(path, t) && RedFocus(path, t, k) && PathRed(path)
      requires path.Right? && t.item == elm && path.item == parent
      modifies this`root, items`left, items`right, items`parent
      ensures At(path', t') && RedFocus(path', t', k) && t'.item == parent
      ensures path'.Left? && path'.item == elm && path'.color == Red && path'.up == path.up
      ensures Inorder(Plug(path', t')) == Inorder(Plug(path, t))
    {
      InsertInnerLeftColors(path, t, k);
      MayTurnLeft(Snapshot(items), root, path.up, Rise(path, t));
      ghost var h, r, f := Snapshot(items), root, RotatedLeft(Rise(path, t));
      RotateLeft(parent);
      TurnLeft(h, Snapshot(items), r, root, path.up, Rise(path, t));
      path', t' := Left(path.up, Red, f.item, f.right), f.left;
    }

    /** The outer grandchild case: recolour and rotate the grandparent. */
    method InsertOuterLeft(parent: Item, gparent: Item, ghost path: Path, ghost t: Tree, ghost k: nat)
      returns (ghost path': Path)
      requires At(path, t) && RedFocus(path, t, k) && PathRed(path)
      requires path.Left? && path.up.Left? && !IsRed(path.up.right) && path.item == parent && path.up.item == gparent
      modifies this`root, items`left, items`right, items`parent, items`color
      ensures At(path', t) && RedFocus(path', t, k) && !PathRed(path')
      ensures Inorder(Plug(path', t)) == Inorder(Plug(path, t)) && Depth(path') < Depth(path)
    {
      InsertOuterLeftColors(path, t, k);
      PaintLeftEdge(Snapshot(items), root, path.up.up, Rise(path.up, Rise(path, t)));
      SetBlackRed(parent, gparent);
      ghost var f := Node(Red, Node(Black, t, parent, path.right), gparent, path.up.right);
      MayTurnRight(Snapshot(items), root, path.up.up, f);
      ghost var h, r := Snapshot(items), root;
      RotateRight(gparent);
      TurnRight(h, Snapshot(items), r, root, path.up.up, f);
      path' := Left(path.up.up, Black, path.item, Node(Red, path.right, path.up.item, path.up.right));
    }

    /** One turn of the loop of RB_INSERT_COLOR when `parent` is a left child. */
    method InsertTurnLeft(e: Item, p: Item, gparent: Item, ghost path: Path, ghost t: Tree, ghost k: nat)
      returns (elm: Item, ghost path': Path, ghost t': Tree, ghost k': nat)
      requires At(path, t) && RedFocus(path, t, k) && PathRed(path) && path.up.Left?
      requires t.item == e && path.item == p && path.up.item == gparent
      modifies this`root, items`left, items`right, items`parent, items`color
      ensures At(path', t') && RedFocus(path', t', k') && t'.item == elm
      ensures Inorder(Plug(path', t')) == Inorder(Plug(path, t)) && Depth(path') < Depth(path)
    {
      hide Holds, Inorder, NoRedRed, Balanced, PathNoRedRed, PathBalanced;
      elm, path', t', k' := e, path, t, k;
      var parent := p;
      LinksAbove(Snapshot(items), root, path, t);
      LinksAbove(Snapshot(items), root, path.up, Rise(path, t));
      var tmp := gparent.right;
      if tmp != null && tmp.color == Red {
        PaintFamily(Snapshot(items), root, path, t, tmp);
        InsertRecolor(path, t, k);
        SetColor(tmp, Black);
        SetBlackRed(parent, gparent);
        elm := gparent;
        path', t', k' := path.up.up, BlackChildren(Rise(path.up, Rise(path, t))), k + 1;
      } else {
        if parent.right == elm {
          path', t' := InsertInnerLeft(elm, parent, path, t, k);
          tmp := parent;
          parent := elm;
          elm := tmp;
        }
        path' := InsertOuterLeft(parent, gparent, path', t', k);
      }
    }

    /** The inner grandchild case: a rotation at the parent, and the two swap names. */
    method InsertInnerRight(elm: Item, parent: Item, ghost path: Path, ghost t: Tree, ghost k: nat)
      returns (ghost path': Path, ghost t': Tree)
      requires At(path, t) && RedFocus(path, t, k) && PathRed(path)
      requires path.Left? && t.item == elm && path.item == parent
      modifies this`root, items`left, items`right, items`parent
      ensures At(path', t') && RedFocus(path', t', k) && t'.item == parent
      ensures path'.Right? && path'.item == elm && path'.color == Red && path'.up == path.up
      ensures Inorder(Plug(path', t')) == Inorder(Plug(path, t))
    {
      InsertInnerRightColors(path, t, k);
      MayTurnRight(Snapshot(items), root, path.up, Rise(path, t));
      ghost var h, r, f := Snapshot(items), root, RotatedRight(Rise(path, t));
      RotateRight(parent);
      TurnRight(h, Snapshot(items), r, root, path.up, Rise(path, t));
      path', t' := Right(path.up, Red, f.item, f.left), f.right;
    }

    /** The outer grandchild case: recolour and rotate the grandparent. */
    method InsertOuterRight(parent: Item, gparent: Item, ghost path: Path, ghost t: Tree, ghost k: nat)
      returns (ghost path': Path)
      requires At(path, t) && RedFocus(path, t, k) && PathRed(path)
      requires path.Right? && path.up.Right? && !IsRed(path.up.left) && path.item == parent && path.up.item == gparent
      modifies this`root, items`left, items`right, items`parent, items`color
      ensures At(path', t) && RedFocus(path', t, k) && !PathRed(path')
      ensures Inorder(Plug(path', t)) == Inorder(Plug(path, t)) && Depth(path') < Depth(path)
    {
      InsertOuterRightColors(path, t, k);
      PaintRightEdge(Snapshot(items), root, path.up.up, Rise(path.up, Rise(path, t)));
      SetBlackRed(parent, gparent);
      ghost var f := Node(Red, path.up.left, gparent, Node(Black, path.left, parent, t));
      MayTurnLeft(Snapshot(items), root, path.up.up, f);
      ghost var h, r := Snapshot(items), root;
      RotateLeft(gparent);
      TurnLeft(h, Snapshot(items), r, root, path.up.up, f);
      path' := Right(path.up.up, Black, path.item, Node(Red, path.up.left, path.up.item, path.left));
    }

    /** One turn of the loop of RB_INSERT_COLOR when `parent` is a right child. */
    method InsertTurnRight(e: Item, p: Item, gparent: Item, ghost path: Path, ghost t: Tree, ghost k: nat)
      returns (elm: Item, ghost path': Path, ghost t': Tree, ghost k': nat)
      requires At(path, t) && RedFocus(path, t, k) && PathRed(path) && path.up.Right?
      requires t.item == e && path.item == p && path.up.item == gparent
      modifies this`root, items`left, items`right, items`parent, items`color
      ensures At(path', t') && RedFocus(path', t', k') && t'.item == elm
      ensures Inorder(Plug(path', t')) == Inorder(Plug(path, t)) && Depth(path') < Depth(path)
    {
      hide Holds, Inorder, NoRedRed, Balanced, PathNoRedRed, PathBalanced;
      elm, path', t', k' := e, path, t, k;
      var parent := p;
      LinksAbove(Snapshot(items), root, path, t);
      LinksAbove(Snapshot(items), root, path.up, Rise(path, t));
      var tmp := gparent.left;
      if tmp != null && tmp.color == Red {
        PaintFamily(Snapshot(items), root, path, t, tmp);
        InsertRecolor(path, t, k);
        SetColor(tmp, Black);
        SetBlackRed(parent, gparent);
        elm := gparent;
        path', t', k' := path.up.up, BlackChildren(Rise(path.up, Rise(path, t))), k + 1;
      } else {
        if parent.left == elm {
          path', t' := InsertInnerRight(elm, parent, path, t, k);
          tmp := parent;
          parent := elm;
          elm := tmp;
        }
        path' := InsertOuterRight(parent, gparent, path', t', k);
      }
    }

    method InsertTurn(e: Item, ghost path: Path, ghost t: Tree, ghost k: nat)
      returns (elm: Item, ghost path': Path, ghost t': Tree, ghost k': nat)
      requires At(path, t) && RedFocus(path, t, k) && PathRed(path) && t.item == e && e.parent == path.item
      modifies this`root, items`left, items`right, items`parent, items`color
      ensures At(path', t') && RedFocus(path', t', k') && t'.item == elm
      ensures elm.parent == Owner(path') && (!path'.Top? ==> path'.item.color == path'.color)
      ensures Inorder(Plug(path', t')) == Inorder(Plug(path, t)) && Depth(path') < Depth(path)
    {
      RedParent(path, t, k);
      LinksAbove(Snapshot(items), root, path.up, Rise(path, t));
      var parent := e.parent;
      var gparent := parent.parent;
      if parent == gparent.left {
        elm, path', t', k' := InsertTurnLeft(e, parent, gparent, path, t, k);
      } else {
        elm, path', t', k' := InsertTurnRight(e, parent, gparent, path, t, k);
      }
      ParentOfFocus(Snapshot(items), root, path', t');
    }

    method BlackenRoot()
      requires tree.Node? && Holds(Snapshot(items), root, tree)
      modifies this`tree, items`color
      ensures Holds(Snapshot(items), root, tree) && tree == old(tree).(color := Black)
      ensures Inorder(tree) == Inorder(old(tree))
    {
      PaintFocus(Snapshot(items), root, Top, tree, Black);
      SetColor(root, Black);
      tree := tree.(color := Black);
    }

    /** RB_INSERT_COLOR */
    method InsertColor(e: Item, ghost path0: Path, ghost t0: Tree, ghost k0: nat)
      requires At(path0, t0) && RedFocus(path0, t0, k0) && t0.item == e
      modifies this`root, this`tree, items`left, items`right, items`parent, items`color
      ensures Holds(Snapshot(items), root, tree) && RedBlack(tree)
      ensures Inorder(tree) == Inorder(Plug(path0, t0))
    {
      hide Holds, Inorder;
      var elm := e;
      ghost var path, t, k := path0, t0, k0;
      ParentOfFocus(Snapshot(items), root, path, t);
      while elm.parent != null && elm.parent.color == Red
        invariant At(path, t) && RedFocus(path, t, k) && t.item == elm
        invariant elm.parent == Owner(path) && (!path.Top? ==> path.item.color == path.color)
        invariant Inorder(Plug(path, t)) == Inorder(Plug(path0, t0))
        decreases Depth(path)
      {
        elm, path, t, k := InsertTurn(elm, path, t, k);
      }
      tree := Plug(path, t);
      InsertDone(path, t, k);
      BlackenRoot();
    }

    /** The red sibling case: the focus, a left child, sinks one level. */
    method RemoveRedSiblingLeft(parent: Item, s: Item, ghost path: Path, ghost t: Tree, ghost k: nat)
      returns (tmp: Item, ghost path': Path)
      requires At(path, t) && ShortFocus(path, t, k) && path.Left? && path.item == parent && IsRed(path.right)
        && path.right.item == s
      modifies this`root, items`left, items`right, items`parent, items`color
      ensures At(path', t) && ShortFocus(path', t, k)
      ensures path'.Left? && path'.color == Red && path'.item == parent
      ensures path'.right.Node? && path'.right.color == Black && path'.right.item == tmp
      ensures Inorder(Plug(path', t)) == Inorder(Plug(path, t))
    {
      RemoveRedSiblingLeftColors(path, t, k);
      PaintRightEdge(Snapshot(items), root, path.up, Rise(path, t));
      SetBlackRed(s, parent);
      ghost var f := Node(Red, t, parent, path.right.(color := Black));
      MayTurnLeft(Snapshot(items), root, path.up, f);
      ghost var h, r := Snapshot(items), root;
      RotateLeft(parent);
      TurnLeft(h, Snapshot(items), r, root, path.up, f);
      path' := Left(Left(path.up, Black, s, path.right.right), Red, parent, path.right.left);
      LinksAbove(Snapshot(items), root, path', t);
      tmp := parent.right;
    }

    /** The red inner nephew case: the nephew is rotated up, so that the outer nephew is red. */
    method RemoveInnerNephewLeft(parent: Item, s0: Item, ghost path: Path, ghost t: Tree, ghost k: nat)
      returns (tmp: Item, ghost path': Path)
      requires At(path, t) && ShortFocus(path, t, k) && path.Left? && path.item == parent
      requires path.right.Node? && path.right.color == Black && path.right.item == s0
      requires IsRed(path.right.left) && !IsRed(path.right.right)
      modifies this`root, items`left, items`right, items`parent, items`color
      ensures At(path', t) && ShortFocus(path', t, k)
      ensures path'.Left? && path'.color == path.color && path'.item == parent && path'.up == path.up
      ensures path'.right.Node? && path'.right.color == Black && path'.right.item == tmp && IsRed(path'.right.right)
      ensures Inorder(Plug(path', t)) == Inorder(Plug(path, t))
    {
      tmp := s0;
      RemoveInnerNephewLeftColors(path, t, k);
      ghost var Node(_, Node(_, a, y, b), s, d) := path.right;
      ghost var below := Right(path.up, path.color, parent, t);
      LinksOfSubtree(Snapshot(items), root, below, path.right);
      PaintLeftEdge(Snapshot(items), root, below, path.right);
      var oleft := tmp.left;
      if oleft != null {
        SetColor(oleft, Black);
      }
      SetColor(tmp, Red);
      ghost var f := Node(Red, Node(Black, a, y, b), s, d);
      MayTurnRight(Snapshot(items), root, below, f);
      ghost var h, r := Snapshot(items), root;
      RotateRight(tmp);
      TurnRight(h, Snapshot(items), r, root, below, f);
      path' := Left(path.up, path.color, parent, Node(Black, a, y, Node(Red, b, s, d)));
      LinksAbove(Snapshot(items), root, path', t);
      tmp := parent.right;
    }

    /** The red outer nephew case: one rotation at the parent puts the missing black node back. */
    method RemoveOuterNephewLeft(parent: Item, tmp: Item, ghost path: Path, ghost t: Tree, ghost k: nat)
      returns (ghost f: Tree)
      requires At(path, t) && ShortFocus(path, t, k) && path.Left? && path.item == parent && !IsRed(t)
      requires path.right.Node? && path.right.color == Black && path.right.item == tmp && IsRed(path.right.right)
      modifies this`root, items`left, items`right, items`parent, items`color
      ensures At(path.up, f) && RedBlack(Plug(path.up, f))
      ensures Inorder(Plug(path.up, f)) == Inorder(Plug(path, t))
    {
      RemoveOuterNephewLeftColors(path, t, k);
      ghost var Node(_, a, s, d) := path.right;
      LinksAbove(Snapshot(items), root, path, t);
      PaintRight(Snapshot(items), root, path.up, Rise(path, t), path.color);
      SetColor(tmp, parent.color);
      PaintFocus(Snapshot(items), root, path.up, Node(path.color, t, parent, Node(path.color, a, s, d)), Black);
      SetColor(parent, Black);
      ghost var below := Right(path.up, Black, parent, t);
      LinksOfSubtree(Snapshot(items), root, below, path.right.(color := path.color));
      PaintRight(Snapshot(items), root, below, path.right.(color := path.color), Black);
      if tmp.right != null {
        SetColor(tmp.right, Black);
      }
      f := Node(Black, t, parent, Node(path.color, a, s, d.(color := Black)));
      MayTurnLeft(Snapshot(items), root, path.up, f);
      ghost var h, r := Snapshot(items), root;
      RotateLeft(parent);
      TurnLeft(h, Snapshot(items), r, root, path.up, f);
      f := RotatedLeft(f);
      ZipPlug(path.up, f, if path.color == Black then k + 2 else k + 1);
    }

    /** The red sibling case: the focus, a right child, sinks one level. */
    method RemoveRedSiblingRight(parent: Item, s: Item, ghost path: Path, ghost t: Tree, ghost k: nat)
      returns (tmp: Item, ghost path': Path)
      requires At(path, t) && ShortFocus(path, t, k) && path.Right? && path.item == parent && IsRed(path.left)
        && path.left.item == s
      modifies this`root, items`left, items`right, items`parent, items`color
      ensures At(path', t) && ShortFocus(path', t, k)
      ensures path'.Right? && path'.color == Red && path'.item == parent
      ensures path'.left.Node? && path'.left.color == Black && path'.left.item == tmp
      ensures Inorder(Plug(path', t)) == Inorder(Plug(path, t))
    {
      RemoveRedSiblingRightColors(path, t, k);
      PaintLeftEdge(Snapshot(items), root, path.up, Rise(path, t));
      SetBlackRed(s, parent);
      ghost var f := Node(Red, path.left.(color := Black), parent, t);
      MayTurnRight(Snapshot(items), root, path.up, f);
      ghost var h, r := Snapshot(items), root;
      RotateRight(parent);
      TurnRight(h, Snapshot(items), r, root, path.up, f);
      path' := Right(Right(path.up, Black, s, path.left.left), Red, parent, path.left.right);
      LinksAbove(Snapshot(items), root, path', t);
      tmp := parent.left;
    }

    /** The red inner nephew case: the nephew is rotated up, so that the outer nephew is red. */
    method RemoveInnerNephewRight(parent: Item, s0: Item, ghost path: Path, ghost t: Tree, ghost k: nat)
      returns (tmp: Item, ghost path': Path)
      requires At(path, t) && ShortFocus(path, t, k) && path.Right? && path.item == parent
      requires path.left.Node? && path.left.color == Black && path.left.item == s0
      requires IsRed(path.left.right) && !IsRed(path.left.left)
      modifies this`root, items`left, items`right, items`parent, items`color
      ensures At(path', t) && ShortFocus(path', t, k)
      ensures path'.Right? && path'.color == path.color && path'.item == parent && path'.up == path.up
      ensures path'.left.Node? && path'.left.color == Black && path'.left.item == tmp && IsRed(path'.left.left)
      ensures Inorder(Plug(path', t)) == Inorder(Plug(path, t))
    {
      tmp := s0;
      RemoveInnerNephewRightColors(path, t, k);
      ghost var Node(_, d, s, Node(_, b, y, a)) := path.left;
      ghost var below := Left(path.up, path.color, parent, t);
      LinksOfSubtree(Snapshot(items), root, below, path.left);
      PaintRightEdge(Snapshot(items), root, below, path.left);
      var oright := tmp.right;
      if oright != null {
        SetColor(oright, Black);
      }
      SetColor(tmp, Red);
      ghost var f := Node(Red, d, s, Node(Black, b, y, a));
      MayTurnLeft(Snapshot(items), root, below, f);
      ghost var h, r := Snapshot(items), root;
      RotateLeft(tmp);
      TurnLeft(h, Snapshot(items), r, root, below, f);
      path' := Right(path.up, path.color, parent, Node(Black, Node(Red, d, s, b), y, a));
      LinksAbove(Snapshot(items), root, path', t);
      tmp := parent.left;
    }

    /** The red outer nephew case: one rotation at the parent puts the missing black node back. */
    method RemoveOuterNephewRight(parent: Item, tmp: Item, ghost path: Path, ghost t: Tree, ghost k: nat)
      returns (ghost f: Tree)
      requires At(path, t) && ShortFocus(path, t, k) && path.Right? && path.item == parent && !IsRed(t)
      requires path.left.Node? && path.left.color == Black && path.left.item == tmp && IsRed(path.left.left)
      modifies this`root, items`left, items`right, items`parent, items`color
      ensures At(path.up, f) && RedBlack(Plug(path.up, f))
      ensures Inorder(Plug(path.up, f)) == Inorder(Plug(path, t))
    {
      RemoveOuterNephewRightColors(path, t, k);
      ghost var Node(_, d, s, a) := path.left;
      LinksAbove(Snapshot(items), root, path, t);
      PaintLeft(Snapshot(items), root, path.up, Rise(path, t), path.color);
      SetColor(tmp, parent.color);
      PaintFocus(Snapshot(items), root, path.up, Node(path.color, Node(path.color, d, s, a), parent, t), Black);
      SetColor(parent, Black);
      ghost var below := Left(path.up, Black, parent, t);
      LinksOfSubtree(Snapshot(items), root, below, path.left.(color := path.color));
      PaintLeft(Snapshot(items), root, below, path.left.(color := path.color), Black);
      if tmp.left != null {
        SetColor(tmp.left, Black);
      }
      f := Node(Black, Node(path.color, d.(color := Black), s, a), parent, t);
      MayTurnRight(Snapshot(items), root, path.up, f);
      ghost var h, r := Snapshot(items), root;
      RotateRight(parent);
      TurnRight(h, Snapshot(items), r, root, path.up, f);
      f := RotatedRight(f);
      ZipPlug(path.up, f, if path.color == Black then k + 2 else k + 1);
    }

    /** The case of two black nephews: the sibling turns red and the parent becomes the focus. */
    method RemoveBlackNephews(tmp: Item, ghost path: Path, ghost t: Tree, ghost k: nat)
      returns (ghost path': Path, ghost t': Tree, ghost k': nat)
      requires At(path, t) && ShortFocus(path, t, k) && !path.Top? && !IsRed(t) && tmp in items
      requires var s := Sibling(path);
        s.Node? && s.color == Black && s.item == tmp && !IsRed(s.left) && !IsRed(s.right)
      modifies items`color
      ensures At(path', t') && ShortFocus(path', t', k') && path' == path.up && Root(t') == path.item
      ensures Inorder(Plug(path', t')) == Inorder(Plug(path, t))
      ensures t'.Node? && t'.color == path.color
    {
      hide Holds, Inorder, NoRedRed, Balanced, PathNoRedRed, PathBalanced;
      RemoveBlackNephewsColors(path, t, k);
      if path.Left? {
        PaintRight(Snapshot(items), root, path.up, Rise(path, t), Red);
      } else {
        PaintLeft(Snapshot(items), root, path.up, Rise(path, t), Red);
      }
      SetColor(tmp, Red);
      path', t', k' := path.up, Rise(RedSibling(path), t), if path.color == Black then k + 1 else k;
    }

    /** The case of a red nephew, with which the loop ends. */
    method RemoveRedNephewLeft(parent: Item, s: Item, ghost path0: Path, ghost t: Tree, ghost k: nat)
      returns (ghost t': Tree, ghost k': nat)
      requires At(path0, t) && ShortFocus(path0, t, k) && path0.Left? && path0.item == parent && !IsRed(t)
      requires path0.right.Node? && path0.right.color == Black && path0.right.item == s && s in items
      requires IsRed(path0.right.left) || IsRed(path0.right.right)
      modifies this`root, items`left, items`right, items`parent, items`color
      ensures At(Top, t') && ShortFocus(Top, t', k') && !IsRed(t') && Inorder(t') == Inorder(Plug(path0, t))
    {
      hide Holds, Inorder, ShortFocus, RedBlack;
      ghost var path := path0;
      var tmp := s;
      Nephews(Snapshot(items), root, path, t);
      if tmp.right == null || tmp.right.color == Black {
        tmp, path := RemoveInnerNephewLeft(parent, tmp, path, t, k);
      }
      ghost var f := RemoveOuterNephewLeft(parent, tmp, path, t, k);
      t' := Plug(path.up, f);
      k' := RedBlackAtTop(t');
    }

    /** One turn of the loop of RB_REMOVE_COLOR when the focus is a left child.  Leaving by
        `break` is modelled by the loop test, which fails for `elm == root`. */
    method RemoveTurnLeft(e: Item?, p: Item, ghost path0: Path, ghost t: Tree, ghost k: nat)
      returns (elm: Item?, parent: Item?, ghost path': Path, ghost t': Tree, ghost k': nat)
      requires At(path0, t) && ShortFocus(path0, t, k) && path0.Left? && !IsRed(t) && Root(t) == e && path0.item == p
      modifies this`root, items`left, items`right, items`parent, items`color
      ensures At(path', t') && ShortFocus(path', t', k') && Root(t') == elm && (elm != root ==> Owner(path') == parent)
      ensures Inorder(Plug(path', t')) == Inorder(Plug(path0, t))
      ensures RemoveMeasure(path', t') < RemoveMeasure(path0, t)
    {
      hide Holds, Inorder, ShortFocus, RedBlack;
      ghost var path := path0;
      parent := p;
      SiblingExists(path, t, k);
      LinksAbove(Snapshot(items), root, path, t);
      var tmp := parent.right;
      if tmp.color == Red {
        tmp, path := RemoveRedSiblingLeft(parent, tmp, path, t, k);
        SiblingExists(path, t, k);
        LinksAbove(Snapshot(items), root, path, t);
      }
      Nephews(Snapshot(items), root, path, t);
      if (tmp.left == null || tmp.left.color == Black) && (tmp.right == null || tmp.right.color == Black) {
        path', t', k' := RemoveBlackNephews(tmp, path, t, k);
        elm := parent;
        FocusInMemory(Snapshot(items), root, path', t');
        parent := elm.parent;
      } else {
        t', k' := RemoveRedNephewLeft(parent, tmp, path, t, k);
        elm, path' := root, Top;
        FocusInMemory(Snapshot(items), root, path', t');
      }
    }

    /** The case of a red nephew, with which the loop ends. */
    method RemoveRedNephewRight(parent: Item, s: Item, ghost path0: Path, ghost t: Tree, ghost k: nat)
      returns (ghost t': Tree, ghost k': nat)
      requires At(path0, t) && ShortFocus(path0, t, k) && path0.Right? && path0.item == parent && !IsRed(t)
      requires path0.left.Node? && path0.left.color == Black && path0.left.item == s && s in items
      requires IsRed(path0.left.left) || IsRed(path0.left.right)
      modifies this`root, items`left, items`right, items`parent, items`color
      ensures At(Top, t') && ShortFocus(Top, t', k') && !IsRed(t') && Inorder(t') == Inorder(Plug(path0, t))
    {
      hide Holds, Inorder, ShortFocus, RedBlack;
      ghost var path := path0;
      var tmp := s;
      Nephews(Snapshot(items), root, path, t);
      if tmp.left == null || tmp.left.color == Black {
        tmp, path := RemoveInnerNephewRight(parent, tmp, path, t, k);
      }
      ghost var f := RemoveOuterNephewRight(parent, tmp, path, t, k);
      t' := Plug(path.up, f);
      k' := RedBlackAtTop(t');
    }

    /** One turn of the loop of RB_REMOVE_COLOR when the focus is a right child.  Leaving by
        `break` is modelled by the loop test, which fails for `elm == root`. */
    method RemoveTurnRight(e: Item?, p: Item, ghost path0: Path, ghost t: Tree, ghost k: nat)
      returns (elm: Item?, parent: Item?, ghost path': Path, ghost t': Tree, ghost k': nat)
      requires At(path0, t) && ShortFocus(path0, t, k) && path0.Right? && !IsRed(t) && Root(t) == e && path0.item == p
      modifies this`root, items`left, items`right, items`parent, items`color
      ensures At(path', t') && ShortFocus(path', t', k') && Root(t') == elm && (elm != root ==> Owner(path') == parent)
      ensures Inorder(Plug(path', t')) == Inorder(Plug(path0, t))
      ensures RemoveMeasure(path', t') < RemoveMeasure(path0, t)
    {
      hide Holds, Inorder, ShortFocus, RedBlack;
      ghost var path := path0;
      parent := p;
      SiblingExists(path, t, k);
      LinksAbove(Snapshot(items), root, path, t);
      var tmp := parent.left;
      if tmp.color == Red {
        tmp, path := RemoveRedSiblingRight(parent, tmp, path, t, k);
        SiblingExists(path, t, k);
        LinksAbove(Snapshot(items), root, path, t);
      }
      Nephews(Snapshot(items), root, path, t);
      if (tmp.left == null || tmp.left.color == Black) && (tmp.right == null || tmp.right.color == Black) {
        path', t', k' := RemoveBlackNephews(tmp, path, t, k);
        elm := parent;
        FocusInMemory(Snapshot(items), root, path', t');
        parent := elm.parent;
      } else {
        t', k' := RemoveRedNephewRight(parent, tmp, path, t, k);
        elm, path' := root, Top;
        FocusInMemory(Snapshot(items), root, path', t');
      }
    }

    /** The last line of RB_REMOVE_COLOR */
    method BlackenFocus(elm: Item?, ghost path: Path, ghost t: Tree, ghost k: nat)
      requires At(path, t) && ShortFocus(path, t, k) && Root(t) == elm && (elm != null ==> elm in items)
      requires IsRed(t) || path.Top?
      modifies this`tree, items`color
      ensures Holds(Snapshot(items), root, tree) && RedBlack(tree)
      ensures Inorder(tree) == Inorder(Plug(path, t))
    {
      hide Holds, Inorder, RedBlack, ShortFocus;
      RemoveDone(path, t, k);
      if elm != null {
        PaintFocus(Snapshot(items), root, path, t, Black);
        SetColor(elm, Black);
      }
      tree := Plug(path, Blackened(t));
    }

    /** RB_REMOVE_COLOR */
    method RemoveColor(parent0: Item?, elm0: Item?, ghost path0: Path, ghost t0: Tree, ghost k0: nat)
      requires At(path0, t0) && ShortFocus(path0, t0, k0) && Root(t0) == elm0 && Owner(path0) == parent0
      modifies this`root, this`tree, items`left, items`right, items`parent, items`color
      ensures Holds(Snapshot(items), root, tree) && RedBlack(tree)
      ensures Inorder(tree) == Inorder(Plug(path0, t0))
    {
      hide Holds, Inorder, NoRedRed, Balanced, PathNoRedRed, PathBalanced;
      var parent, elm := parent0, elm0;
      ghost var path, t, k := path0, t0, k0;
      FocusInMemory(Snapshot(items), root, path, t);
      while (elm == null || elm.color == Black) && elm != root
        invariant At(path, t) && ShortFocus(path, t, k) && Root(t) == elm && (elm != root ==> Owner(path) == parent)
        invariant elm != null ==> elm in items && elm.color == t.color
        invariant root == elm <==> path.Top?
        invariant Inorder(Plug(path, t)) == Inorder(Plug(path0, t0))
        decreases RemoveMeasure(path, t)
      {
        LinksAbove(Snapshot(items), root, path, t);
        SiblingExists(path, t, k);
        if parent.left == elm {
          elm, parent, path, t, k := RemoveTurnLeft(elm, parent, path, t, k);
        } else {
          elm, parent, path, t, k := RemoveTurnRight(elm, parent, path, t, k);
        }
        FocusInMemory(Snapshot(items), root, path, t);
      }
      BlackenFocus(elm, path, t, k);
    }

    // ----- searching

    /** RB_FIND: the node with the key `sockId`, if there is one, in at most Height steps. */
    method Find(sockId: int) returns (tmp: Item?, ghost steps: nat)
      requires Valid()
      ensures tmp != null ==> tmp in items && tmp.sockId == sockId
      ensures tmp == null ==> forall x :: x in items ==> x.sockId != sockId
      ensures steps <= Height(tree)
    {
      hide Holds, Sorted, Inorder, RedBlack, Narrowed, Bst;
      ghost var path, t := Top, tree;
      tmp, steps := root, 0;
      SearchStart(tree, sockId);
      HoldsBasics(Snapshot(items), root, tree);
      while tmp != null
        invariant Plug(path, t) == tree && Root(t) == tmp && Bst(t) && Narrowed(path, sockId)
        invariant steps + Height(t) <= Height(tree)
        decreases t
      {
        LinksOfSubtree(Snapshot(items), root, path, t);
        if sockId < tmp.sockId {
          NarrowLeft(path, t, sockId);
          tmp := tmp.left;
          path, t := Left(path, t.color, t.item, t.right), t.left;
        } else if sockId > tmp.sockId {
          NarrowRight(path, t, sockId);
          tmp := tmp.right;
          path, t := Right(path, t.color, t.item, t.left), t.right;
        } else {
          return;
        }
        steps := steps + 1;
      }
      forall x | x in items ensures x.sockId != sockId { NotThere(path, sockId, x); }
    }

    /** RB_NFIND: the first node whose key is not below `sockId`. */
    method NFind(sockId: int) returns (res: Item?, ghost steps: nat)
      requires Valid()
      ensures res != null ==> res in items && res.sockId >= sockId
      ensures forall x :: x in items && x.sockId >= sockId ==> res != null && res.sockId <= x.sockId
      ensures steps <= Height(tree)
    {
      hide Holds, Sorted, Inorder, RedBlack, Narrowed, Bst, FirstOf;
      ghost var path, t := Top, tree;
      var tmp := root;
      res, steps := null, 0;
      SearchStart(tree, sockId);
      HoldsBasics(Snapshot(items), root, tree);
      while tmp != null
        invariant Plug(path, t) == tree && Root(t) == tmp && Bst(t) && Narrowed(path, sockId)
        invariant res == FirstOf(After(path))
        invariant steps + Height(t) <= Height(tree)
        decreases t
      {
        LinksOfSubtree(Snapshot(items), root, path, t);
        if sockId < tmp.sockId {
          NarrowLeft(path, t, sockId);
          res := tmp;
          tmp := tmp.left;
          path, t := Left(path, t.color, t.item, t.right), t.left;
        } else if sockId > tmp.sockId {
          NarrowRight(path, t, sockId);
          tmp := tmp.right;
          path, t := Right(path, t.color, t.item, t.left), t.right;
        } else {
          res := tmp;
          return;
        }
        steps := steps + 1;
      }
      FirstAfter(tree, path, sockId, res);
    }

    // ----- walking

    /** RB_MINMAX */
    method MinMax(val: int) returns (parent: Item?)
      requires Valid()
      ensures Inorder(tree) == [] ==> parent == null
      ensures Inorder(tree) != [] ==> parent == Inorder(tree)[if val < 0 then 0 else |Inorder(tree)| - 1]
    {
      hide Holds, Sorted, Inorder, RedBlack, Before, After;
      ghost var path, t := Top, tree;
      var tmp := root;
      parent := null;
      HoldsBasics(Snapshot(items), root, tree);
      MoveCounts(Top, tree);
      TopCounts();
      while tmp != null
        invariant Plug(path, t) == tree && Root(t) == tmp
        invariant parent == Owner(path) && (val < 0 ==> AllLeft(path)) && (val >= 0 ==> AllRight(path))
        decreases t
      {
        LinksOfSubtree(Snapshot(items), root, path, t);
        parent := tmp;
        if val < 0 {
          tmp := tmp.left;
          path, t := Left(path, t.color, t.item, t.right), t.left;
        } else {
          tmp := tmp.right;
          path, t := Right(path, t.color, t.item, t.left), t.right;
        }
      }
      Extremes(path);
    }

    /** RB_NEXT: the in-order successor, or NULL at the end. */
    method Next(e: Item) returns (r: Item?, ghost i: nat)
      requires Valid() && e in items
      ensures i < |Inorder(tree)| && Inorder(tree)[i] == e
      ensures r == if i + 1 < |Inorder(tree)| then Inorder(tree)[i + 1] else null
      ensures r == ItemAfter(Inorder(tree), e)
    {
      hide Holds, Sorted, Inorder, RedBlack, Before, After, ItemAfter, ItemBefore;
      HoldsBasics(Snapshot(items), root, tree);
      ghost var path, t := FocusOn(tree, e);
      FocusIndex(path, t);
      i := |Before(path)| + |Inorder(t.left)|;
      Neighbours(Inorder(tree), i);
      LinksOfSubtree(Snapshot(items), root, path, t);
      var elm := e;
      if elm.right != null {
        MoveCounts(path, t);
        elm := elm.right;
        path, t := Right(path, t.color, t.item, t.left), t.right;
        MoveCounts(path, t);
        LinksOfSubtree(Snapshot(items), root, path, t);
        while elm.left != null
          invariant Plug(path, t) == tree && t.Node? && t.item == elm && elm in items && elm.left == Root(t.left)
          invariant |Before(path)| == i + 1
          decreases t
        {
          MoveCounts(path, t);
          elm := elm.left;
          path, t := Left(path, t.color, t.item, t.right), t.left;
          MoveCounts(path, t);
          LinksOfSubtree(Snapshot(items), root, path, t);
        }
        MoveCounts(path, t);
        MoveCounts(Top, t.left);
        FocusIndex(path, t);
        return elm, i;
      }
      MoveCounts(path, t);
      MoveCounts(Top, t.right);
      UpLinks(Snapshot(items), root, path, t);
      if elm.parent != null && elm == elm.parent.left {
        elm := elm.parent;
        MoveCounts(path, t);
        FocusIndex(path.up, Rise(path, t));
        return elm, i;
      }
      while elm.parent != null && elm == elm.parent.right
        invariant Plug(path, t) == tree && t.Node? && t.item == elm && elm in items
        invariant elm.parent == Owner(path)
        invariant !path.Top? ==> path.item in items && (path.item.right == elm <==> path.Right?)
        invariant |Before(path)| + |Inorder(t)| == i + 1
        decreases path
      {
        MoveCounts(path, t);
        elm := elm.parent;
        path, t := path.up, Rise(path, t);
        MoveCounts(path, t);
        UpLinks(Snapshot(items), root, path, t);
      }
      if path.Top? {
        TopCounts();
      } else {
        MoveCounts(path, t);
        FocusIndex(path.up, Rise(path, t));
      }
      return elm.parent, i;
    }

    /** RB_PREV: the in-order predecessor, or NULL at the start. */
    method Prev(e: Item) returns (r: Item?, ghost i: nat)
      requires Valid() && e in items
      ensures i < |Inorder(tree)| && Inorder(tree)[i] == e
      ensures r == if i > 0 then Inorder(tree)[i - 1] else null
      ensures r == ItemBefore(Inorder(tree), e)
    {
      hide Holds, Sorted, Inorder, RedBlack, Before, After, ItemAfter, ItemBefore;
      HoldsBasics(Snapshot(items), root, tree);
      ghost var path, t := FocusOn(tree, e);
      FocusIndex(path, t);
      i := |Before(path)| + |Inorder(t.left)|;
      Neighbours(Inorder(tree), i);
      LinksOfSubtree(Snapshot(items), root, path, t);
      var elm := e;
      if elm.left != null {
        MoveCounts(path, t);
        elm := elm.left;
        path, t := Left(path, t.color, t.item, t.right), t.left;
        MoveCounts(path, t);
        LinksOfSubtree(Snapshot(items), root, path, t);
        while elm.right != null
          invariant Plug(path, t) == tree && t.Node? && t.item == elm && elm in items && elm.right == Root(t.right)
          invariant |Before(path)| + |Inorder(t)| == i
          decreases t
        {
          MoveCounts(path, t);
          elm := elm.right;
          path, t := Right(path, t.color, t.item, t.left), t.right;
          MoveCounts(path, t);
          LinksOfSubtree(Snapshot(items), root, path, t);
        }
        MoveCounts(path, t);
        MoveCounts(Top, t.right);
        FocusIndex(path, t);
        return elm, i;
      }
      MoveCounts(path, t);
      MoveCounts(Top, t.left);
      UpLinks(Snapshot(items), root, path, t);
      if elm.parent != null && elm == elm.parent.right {
        elm := elm.parent;
        MoveCounts(path, t);
        FocusIndex(path.up, Rise(path, t));
        return elm, i;
      }
      while elm.parent != null && elm == elm.parent.left
        invariant Plug(path, t) == tree && t.Node? && t.item == elm && elm in items
        invariant elm.parent == Owner(path)
        invariant !path.Top? ==> path.item in items && (path.item.left == elm <==> path.Left?)
        invariant |Before(path)| == i
        decreases path
      {
        MoveCounts(path, t);
        elm := elm.parent;
        path, t := path.up, Rise(path, t);
        MoveCounts(path, t);
        UpLinks(Snapshot(items), root, path, t);
      }
      if path.Top? {
        TopCounts();
      } else {
        MoveCounts(path, t);
        FocusIndex(path.up, Rise(path, t));
      }
      return elm.parent, i;
    }

    /** RB_FOREACH visits exactly the items of the tree, once each, in increasing key order. */
    method ForEach() returns (visited: seq<Item>)
      requires Valid()
      ensures visited == Inorder(tree) && Sorted(visited)
      ensures forall x :: x in items ==> x in visited
      ensures forall x :: x in visited ==> x in items
    {
      hide Holds, Inorder, RedBlack;
      visited := [];
      var x := MinMax(-1);
      HoldsBasics(Snapshot(items), root, tree);
      forall y | y in Inorder(tree) ensures y in items { ElemsInorder(tree, y); }
      while x != null
        invariant visited <= Inorder(tree)
        invariant x == if |visited| < |Inorder(tree)| then Inorder(tree)[|visited|] else null
        invariant x != null ==> x in items
        decreases |Inorder(tree)| - |visited|
      {
        visited := visited + [x];
        ghost var i, n := 0, |visited| - 1;
        x, i := Next(x);
        SortedIndex(Inorder(tree), i, n);
      }
      forall y | y in items ensures y in visited { ElemsInorder(tree, y); }
    }

    /** A tree of n items has height at most 2 log2(n + 1), which bounds the steps of the
        descents in RB_FIND, RB_NFIND and RB_INSERT. */
    lemma HeightOfItems()
      requires Valid()
      ensures Pow2(Height(tree)) <= (|items| + 1) * (|items| + 1)
    {
      HeightBound(tree);
      SizeIsCount(tree);
    }

    // ----- inserting

    /** RB_INSERT: an item with the same key is returned and nothing changes; otherwise NULL
        is returned and exactly `elm` is added. */
    method Insert(elm: Item) returns (r: Item?, ghost steps: nat)
      requires Valid() && elm !in items
      modifies this, elm`left, elm`right, elm`parent, elm`color
      modifies items`left, items`right, items`parent, items`color
      ensures Valid()
      ensures r != null ==>
        r in items && r.sockId == elm.sockId && unchanged(this) && Snapshot(items) == old(Snapshot(items))
      ensures r == null ==> items == old(items) + {elm} && forall x :: x in old(items) ==> x.sockId != elm.sockId
      ensures steps <= old(Height(tree))
    {
      hide Holds, Sorted, Inorder, RedBlack, Narrowed, Bst, FirstOf;
      ghost var path, t := Top, tree;
      steps := 0;
      var tmp, parent, comp := root, null, 0;
      SearchStart(tree, elm.sockId);
      HoldsBasics(Snapshot(items), root, tree);
      while tmp != null
        invariant Plug(path, t) == tree && Root(t) == tmp && Bst(t) && Narrowed(path, elm.sockId)
        invariant parent == Owner(path) && (comp < 0 <==> path.Left?) && (comp > 0 <==> path.Right?)
        invariant steps + Height(t) <= Height(tree)
        decreases t
        modifies {}
      {
        LinksOfSubtree(Snapshot(items), root, path, t);
        steps := steps + 1;
        parent := tmp;
        comp := elm.sockId - parent.sockId;
        if comp < 0 {
          NarrowLeft(path, t, elm.sockId);
          tmp := tmp.left;
          path, t := Left(path, t.color, t.item, t.right), t.left;
        } else if comp > 0 {
          NarrowRight(path, t, elm.sockId);
          tmp := tmp.right;
          path, t := Right(path, t.color, t.item, t.left), t.right;
        } else {
          return tmp, steps;
        }
      }
      assert t == Leaf;
      forall x | x in items ensures x.sockId != elm.sockId { NotThere(path, elm.sockId, x); }
      ghost var k := InsertedLeaf(path, elm);
      Link(elm, parent, comp, path);
      InsertColor(elm, path, Node(Red, Leaf, elm, Leaf), k);
      return null, steps;
    }

    /** RB_SET and the link from the parent */
    method Link(elm: Item, parent: Item?, comp: int, ghost path: Path)
      requires At(path, Leaf) && elm !in items && parent == Owner(path)
      requires (comp < 0 <==> path.Left?) && (comp > 0 <==> path.Right?)
      modifies this`root, this`items, elm`left, elm`right, elm`parent, elm`color
      modifies items`left, items`right
      ensures items == old(items) + {elm} && At(path, Node(Red, Leaf, elm, Leaf))
    {
      ghost var h, r := Snapshot(items), root;
      if !path.Top? {
        LinksAbove(h, root, path, Leaf);
      }
      elm.parent := parent;
      elm.left, elm.right := null, null;
      elm.color := Red;
      if parent != null {
        if comp < 0 {
          parent.left := elm;
        } else {
          parent.right := elm;
        }
      } else {
        root := elm;
      }
      items := items + {elm};
      LinkLeaf(h, Snapshot(items), r, root, path, elm);
    }

    // ----- removing

    /** The lines of RB_REMOVE, written there twice, that cut `elm` out: its only child takes its link. */
    method Splice(elm: Item, parent: Item?, child: Item?, ghost path: Path, ghost t: Tree, ghost c: Tree)
      requires At(path, t) && t.Node? && t.item == elm && parent == Owner(path) && child == Root(c)
      requires (t.left.Leaf? && c == t.right) || (t.right.Leaf? && c == t.left)
      modifies this`root, this`items, items`left, items`right, items`parent
      ensures items == old(items) - {elm} && At(path, c)
      ensures unchanged(elm)
    {
      ghost var h, r := Snapshot(items), root;
      UpLinks(h, root, path, t);
      SpliceReady(h, root, path, t, c);
      if child != null {
        child.parent := parent;
      }
      if parent != null {
        if parent.left == elm {
          parent.left := child;
        } else {
          parent.right := child;
        }
      } else {
        root := child;
      }
      items := items - {elm};
      SpliceNode(h, Snapshot(items), r, root, path, t, c);
      HoldsZip(Snapshot(items), root, path, c);
    }

    /** (elm)->field = (old)->field */
    method CopyEntry(elm: Item, o: Item)
      modifies elm`left, elm`right, elm`parent, elm`color
      ensures elm.left == old(o.left) && elm.right == old(o.right)
      ensures elm.parent == old(o.parent) && elm.color == old(o.color)
    {
      elm.left, elm.right, elm.parent, elm.color := o.left, o.right, o.parent, o.color;
    }

    /** The lines of RB_REMOVE that give `elm` the links, the colour and the place of `o`. */
    method TakePlace(elm: Item, o: Item, ghost path: Path, ghost t: Tree)
      requires At(path, t) && t.Node? && t.left.Node? && t.item == o && elm !in items
      modifies this`root, this`items, items`left, items`right, items`parent, items`color
      modifies elm`left, elm`right, elm`parent, elm`color
      ensures items == old(items) - {o} + {elm} && At(path, Node(t.color, t.left, elm, t.right))
    {
      hide Holds, Zip;
      ghost var h, r := Snapshot(items), root;
      UpLinks(h, root, path, t);
      TakeReady(h, root, path, t);
      CopyEntry(elm, o);
      if o.parent != null {
        if o.parent.left == o {
          o.parent.left := elm;
        } else {
          o.parent.right := elm;
        }
      } else {
        root := elm;
      }
      o.left.parent := elm;
      if o.right != null {
        o.right.parent := elm;
      }
      items := items - {o} + {elm};
      ReplaceNode(h, Snapshot(items), r, root, path, t, elm);
      HoldsZip(Snapshot(items), root, path, Node(t.color, t.left, elm, t.right));
    }

    /** The in-order successor of `o`, which has a right child: the leftmost node on its right. */
    method Successor(o: Item, ghost path: Path, ghost t: Tree) returns (elm: Item, ghost rel: Path, ghost s: Tree)
      requires At(path, t) && t.Node? && t.item == o && t.right.Node? && o in items && o.right == t.right.item
      ensures AllLeft(rel) && Plug(rel, s) == t.right && s.Node? && s.left.Leaf? && s.item == elm
      ensures At(Append(rel, Right(path, t.color, o, t.left)), s)
      ensures elm in items && elm.right == Root(s.right) && elm.color == s.color
      ensures elm.parent == Owner(Append(rel, Right(path, t.color, o, t.left)))
    {
      hide Holds;
      elm := o.right;
      ghost var base := Right(path, t.color, o, t.left);
      rel, s := Top, t.right;
      LinksOfSubtree(Snapshot(items), root, base, s);
      while elm.left != null
        invariant AllLeft(rel) && Plug(rel, s) == t.right && s.Node? && s.item == elm && At(Append(rel, base), s)
        invariant elm in items && elm.left == Root(s.left) && elm.right == Root(s.right)
        invariant elm.parent == Owner(Append(rel, base)) && elm.color == s.color
        decreases s
      {
        elm := elm.left;
        rel, s := Left(rel, s.color, s.item, s.right), s.left;
        LinksOfSubtree(Snapshot(items), root, Append(rel, base), s);
      }
    }

    /** The successor leaves its place and takes that of `o`; returns the parent and child where
        the colours have to be fixed. */
    method MoveUp(o: Item, elm: Item, ghost path: Path, ghost t: Tree, ghost rel: Path, ghost s: Tree)
      returns (parent: Item?, child: Item?)
      requires t.Node? && t.item == o && t.left.Node? && t.right == Plug(rel, s) && s.Node? && s.left.Leaf?
        && s.item == elm
      requires At(Append(rel, Right(path, t.color, o, t.left)), s)
      requires elm in items && elm.right == Root(s.right)
        && elm.parent == Owner(Append(rel, Right(path, t.color, o, t.left)))
      modifies this`root, this`items, items`left, items`right, items`parent, items`color
      ensures items == old(items) - {o} && child == Root(s.right)
      ensures At(path, Node(t.color, t.left, elm, Plug(rel, s.right)))
      ensures parent == if rel.Top? then elm else rel.item
    {
      hide Holds;
      ghost var base := Right(path, t.color, o, t.left);
      PlugAppend(rel, base, s);
      NotInRel(Snapshot(items), root, path, t, rel, s);
      RelOwner(rel, base);
      child, parent := elm.right, elm.parent;
      Splice(elm, parent, child, Append(rel, base), s, s.right);
      if elm.parent == o {
        parent := elm;
      }
      PlugAppend(rel, base, s.right);
      TakePlace(elm, o, path, Node(t.color, t.left, o, Plug(rel, s.right)));
    }

    /** RB_REMOVE of an item with two children. */
    method RemoveInner(o: Item, ghost path: Path, ghost t: Tree)
      requires Valid() && Plug(path, t) == tree && t.Node? && t.item == o && t.left.Node? && t.right.Node?
      requires o in items && o.right == t.right.item
      modifies this, items`left, items`right, items`parent, items`color
      ensures Valid() && items == old(items) - {o}
    {
      hide Holds, Inorder, Sorted, Before, After;
      var elm;
      ghost var rel, s;
      elm, rel, s := Successor(o, path, t);
      ghost var base := Right(path, t.color, o, t.left);
      PlugAppend(rel, base, s);
      ghost var k := SpliceColors(Append(rel, base), s, s.right);
      SuccessorOrder(path, t, rel, elm, s.color, s.right);
      SortedDrop(Before(path) + Inorder(t.left), o, Inorder(t.right) + After(path));
      var color := elm.color;
      var parent, child := MoveUp(o, elm, path, t, rel, s);
      ghost var base' := Right(path, t.color, elm, t.left);
      PlugAppend(rel, base', s.right);
      SuccessorColors(rel, base, base', s, s.right, k);
      RelOwner(rel, base');
      if color == Black {
        RemoveColor(parent, child, Append(rel, base'), s.right, k);
      } else {
        tree := Plug(path, Node(t.color, t.left, elm, Plug(rel, s.right)));
      }
    }

    /** RB_REMOVE: exactly `elm` leaves the tree. */
    method Remove(elm: Item) returns (removed: Item)
      requires Valid() && elm in items
      modifies this, items`left, items`right, items`parent, items`color
      ensures Valid() && items == old(items) - {elm} && removed == elm
    {
      hide Holds, Inorder, Sorted, Before, After;
      removed := elm;
      HoldsBasics(Snapshot(items), root, tree);
      ghost var path, t := FocusOn(tree, elm);
      LinksOfSubtree(Snapshot(items), root, path, t);
      var child;
      if elm.left == null {
        child := elm.right;
      } else if elm.right == null {
        child := elm.left;
      } else {
        RemoveInner(elm, path, t);
        return;
      }
      var parent, color := elm.parent, elm.color;
      ghost var c := if t.left.Leaf? then t.right else t.left;
      ghost var k := SpliceColors(path, t, c);
      SpliceOrder(path, t, c);
      SortedDrop(Before(path) + Inorder(t.left), elm, Inorder(t.right) + After(path));
      Splice(elm, parent, child, path, t, c);
      if color == Black {
        RemoveColor(parent, child, path, c, k);
      } else {
        tree := Plug(path, c);
        ZipPlug(path, c, k);
      }
    }
  }
}
