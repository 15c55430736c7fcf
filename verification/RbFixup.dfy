/** What one turn of the two fix-up loops does to the colours, on zippers. */
module RbFixup {
  import opened RbModel

  /** The focus together with its parent. */
  ghost function Rise(path: Path, t: Tree): (f: Tree)
    requires !path.Top?
    ensures f.Node? && Plug(path.up, f) == Plug(path, t)
  {
    match path
    case Left(_, c, x, r) => Node(c, t, x, r)
    case Right(_, c, x, l) => Node(c, l, x, t)
  }

  ghost function Sibling(path: Path): Tree
    requires !path.Top?
  {
    if path.Left? then path.right else path.left
  }

  // ----- insertion

  /** The state of the loop of RB_INSERT_COLOR: all is well but for a red focus that may
      have a red parent, or be a red root. */
  ghost predicate RedFocus(path: Path, t: Tree, k: nat) {
    && IsRed(t) && NoRedRed(t) && Balanced(t, k)
    && PathNoRedRed(path) && PathBalanced(path, k) && TopBlack(path)
  }

  /** A red parent is never the root, and its other child and its parent are black. */
  lemma RedParent(path: Path, t: Tree, k: nat)
    requires RedFocus(path, t, k) && PathRed(path)
    ensures !path.up.Top? && path.up.color == Black && !IsRed(Sibling(path))
  {
  }

  /** The two upper levels with parent and uncle turned black and the grandparent red. */
  ghost function BlackChildren(t: Tree): Tree
    requires t.Node? && t.left.Node? && t.right.Node?
  {
    Node(Red, t.left.(color := Black), t.item, t.right.(color := Black))
  }

  lemma InsertRecolor(path: Path, t: Tree, k: nat)
    requires RedFocus(path, t, k) && PathRed(path) && !path.up.Top? && IsRed(Sibling(path.up))
    ensures var f := BlackChildren(Rise(path.up, Rise(path, t)));
      RedFocus(path.up.up, f, k + 1) && Inorder(Plug(path.up.up, f)) == Inorder(Plug(path, t))
  {
    var f0 := Rise(path.up, Rise(path, t));
    SameInorder(path.up.up, f0, BlackChildren(f0));
    RedParent(path, t, k);
    assert PathNoRedRed(path.up) && PathBalanced(path.up, k) && TopBlack(path.up);
    var u := Sibling(path.up);
    assert IsRed(u) && NoRedRed(u) && Balanced(u, k);
    assert NoRedRed(Blackened(u)) && Balanced(Blackened(u), k + 1);
    var p := Blackened(Rise(path, t));
    assert NoRedRed(p) && Balanced(p, k + 1);
  }

  /** The inner grandchild is first rotated outwards. */
  lemma InsertInnerLeftColors(path: Path, t: Tree, k: nat)
    requires RedFocus(path, t, k) && PathRed(path) && path.Right?
    ensures var f := RotatedLeft(Rise(path, t));
      RedFocus(Left(path.up, Red, f.item, f.right), f.left, k) && Inorder(Plug(path.up, f)) == Inorder(Plug(path, t))
  {
    RotateLeftKeepsOrder(Rise(path, t));
    SameInorder(path.up, Rise(path, t), RotatedLeft(Rise(path, t)));
    RedParent(path, t, k);
  }

  lemma InsertInnerRightColors(path: Path, t: Tree, k: nat)
    requires RedFocus(path, t, k) && PathRed(path) && path.Left?
    ensures var f := RotatedRight(Rise(path, t));
      RedFocus(Right(path.up, Red, f.item, f.left), f.right, k) && Inorder(Plug(path.up, f)) == Inorder(Plug(path, t))
  {
    RotateRightKeepsOrder(Rise(path, t));
    SameInorder(path.up, Rise(path, t), RotatedRight(Rise(path, t)));
    RedParent(path, t, k);
  }

  /** Rotating the recoloured grandparent over the outer grandchild ends the loop. */
  lemma InsertOuterLeftColors(path: Path, t: Tree, k: nat)
    requires RedFocus(path, t, k) && PathRed(path) && path.Left? && path.up.Left? && !IsRed(Sibling(path.up))
    ensures var path' := Left(path.up.up, Black, path.item, Node(Red, path.right, path.up.item, path.up.right));
      RedFocus(path', t, k) && !PathRed(path') && Inorder(Plug(path', t)) == Inorder(Plug(path, t))
  {
    var f := Rise(path.up, Rise(path, t));
    RotateRightKeepsOrder(f);
    SameInorder(path.up.up, f, Rise(Left(path.up.up, Black, path.item,
      Node(Red, path.right, path.up.item, path.up.right)), t));
    RedParent(path, t, k);
    assert PathNoRedRed(path.up) && PathBalanced(path.up, k) && TopBlack(path.up);
    var g := Node(Red, path.right, path.up.item, path.up.right);
    assert NoRedRed(g) && Balanced(g, k);
  }

  lemma InsertOuterRightColors(path: Path, t: Tree, k: nat)
    requires RedFocus(path, t, k) && PathRed(path) && path.Right? && path.up.Right? && !IsRed(Sibling(path.up))
    ensures var path' := Right(path.up.up, Black, path.item, Node(Red, path.up.left, path.up.item, path.left));
      RedFocus(path', t, k) && !PathRed(path') && Inorder(Plug(path', t)) == Inorder(Plug(path, t))
  {
    var f := Rise(path.up, Rise(path, t));
    RotateLeftKeepsOrder(f);
    SameInorder(path.up.up, f, Rise(Right(path.up.up, Black, path.item,
      Node(Red, path.up.left, path.up.item, path.left)), t));
    RedParent(path, t, k);
    assert PathNoRedRed(path.up) && PathBalanced(path.up, k) && TopBlack(path.up);
    var g := Node(Red, path.up.left, path.up.item, path.left);
    assert NoRedRed(g) && Balanced(g, k);
  }

  /** Once the parent is not red, blackening the root finishes the insertion. */
  lemma InsertDone(path: Path, t: Tree, k: nat)
    requires RedFocus(path, t, k) && !PathRed(path)
    ensures Plug(path, t).Node? && RedBlack(Plug(path, t).(color := Black))
  {
    if path.Top? {
      assert Balanced(t.(color := Black), k + 1);
    } else {
      ZipPlug(path, t, k);
      PlugNode(path, t);
      assert Plug(path, t).(color := Black) == Plug(path, t);
    }
  }

  lemma {:induction false} PlugNode(path: Path, t: Tree)
    requires t.Node? || !path.Top?
    ensures Plug(path, t).Node?
  {
    if !path.Top? {
      PlugNode(path.up, Rise(path, t));
    }
  }

  // ----- removal

  ghost function Blackened(t: Tree): Tree {
    if t.Leaf? then t else t.(color := Black)
  }

  /** The state of the loop of RB_REMOVE_COLOR: the focus is one black node short.  A red
      focus may have a red child, or a red parent: turning it black repairs everything. */
  ghost predicate ShortFocus(path: Path, t: Tree, k: nat) {
    && NoRedRed(Blackened(t)) && Balanced(t, k)
    && PathNoRedRed(path) && PathBalanced(path, k + 1) && TopBlack(path)
  }

  lemma SiblingExists(path: Path, t: Tree, k: nat)
    requires ShortFocus(path, t, k) && !path.Top?
    ensures Sibling(path).Node?
    ensures IsRed(Sibling(path)) ==> path.color == Black && Sibling(path).left.Node? && Sibling(path).right.Node?
  {
    var s := Sibling(path);
    assert Balanced(s, k + 1) && NoRedRed(s);
    if IsRed(s) {
      assert Balanced(s.left, k + 1) && Balanced(s.right, k + 1);
    }
  }

  /** A red sibling is rotated over the parent: the focus sinks one level, below a red parent. */
  lemma RemoveRedSiblingLeftColors(path: Path, t: Tree, k: nat)
    requires ShortFocus(path, t, k) && path.Left? && IsRed(path.right)
    ensures path.right.left.Node? && !IsRed(path.right.left)
    ensures var path' := Left(Left(path.up, Black, path.right.item, path.right.right), Red, path.item, path.right.left);
      ShortFocus(path', t, k) && Inorder(Plug(path', t)) == Inorder(Plug(path, t))
  {
    SiblingExists(path, t, k);
    RotateLeftKeepsOrder(Rise(path, t));
    var up := Left(path.up, Black, path.right.item, path.right.right);
    SameInorder(path.up, Rise(path, t), Rise(up, Node(Red, t, path.item, path.right.left)));
    assert Plug(Left(up, Red, path.item, path.right.left), t) == Plug(up, Node(Red, t, path.item, path.right.left));
  }

  lemma RemoveRedSiblingRightColors(path: Path, t: Tree, k: nat)
    requires ShortFocus(path, t, k) && path.Right? && IsRed(path.left)
    ensures path.left.right.Node? && !IsRed(path.left.right)
    ensures var path' := Right(Right(path.up, Black, path.left.item, path.left.left), Red, path.item, path.left.right);
      ShortFocus(path', t, k) && Inorder(Plug(path', t)) == Inorder(Plug(path, t))
  {
    SiblingExists(path, t, k);
    RotateRightKeepsOrder(Rise(path, t));
    var up := Right(path.up, Black, path.left.item, path.left.left);
    SameInorder(path.up, Rise(path, t), Rise(up, Node(Red, path.left.right, path.item, t)));
    assert Plug(Right(up, Red, path.item, path.left.right), t) == Plug(up, Node(Red, path.left.right, path.item, t));
  }

  ghost function RedSibling(path: Path): Path
    requires !path.Top? && Sibling(path).Node?
  {
    match path
    case Left(up, c, x, s) => Left(up, c, x, s.(color := Red))
    case Right(up, c, x, s) => Right(up, c, x, s.(color := Red))
  }

  /** With two black nephews the sibling turns red and the parent becomes the short focus. */
  lemma RemoveBlackNephewsColors(path: Path, t: Tree, k: nat)
    requires ShortFocus(path, t, k) && !path.Top? && !IsRed(t)
    requires Sibling(path).Node? && Sibling(path).color == Black && !IsRed(Sibling(path).left)
      && !IsRed(Sibling(path).right)
    ensures var f := Rise(RedSibling(path), t);
      ShortFocus(path.up, f, if path.color == Black then k + 1 else k)
        && Inorder(Plug(path.up, f)) == Inorder(Plug(path, t))
  {
    SameInorder(path.up, Rise(path, t), Rise(RedSibling(path), t));
    assert PathNoRedRed(path.up) && PathBalanced(path.up, if path.color == Black then k + 2 else k + 1)
      && TopBlack(path.up);
    var s := Sibling(path).(color := Red);
    assert NoRedRed(s) && Balanced(s, k);
  }

  lemma InnerNephewOrder(path: Path, t: Tree)
    requires !path.Top? && Sibling(path).Node?
    ensures path.Left? && path.right.left.Node? ==>
      var Node(_, Node(_, a, y, b), s, d) := path.right;
      Inorder(Plug(Left(path.up, path.color, path.item, Node(Black, a, y, Node(Red, b, s, d))), t)) ==
        Inorder(Plug(path, t))
    ensures path.Right? && path.left.right.Node? ==>
      var Node(_, d, s, Node(_, b, y, a)) := path.left;
      Inorder(Plug(Right(path.up, path.color, path.item, Node(Black, Node(Red, d, s, b), y, a)), t)) ==
        Inorder(Plug(path, t))
  {
    if path.Left? && path.right.left.Node? {
      var Node(_, Node(_, a, y, b), s, d) := path.right;
      RotateRightKeepsOrder(path.right);
      assert Inorder(Node(Black, a, y, Node(Red, b, s, d))) == Inorder(path.right);
      SameInorder(path.up, Rise(path, t), Node(path.color, t, path.item, Node(Black, a, y, Node(Red, b, s, d))));
    } else if path.Right? && path.left.right.Node? {
      var Node(_, d, s, Node(_, b, y, a)) := path.left;
      RotateLeftKeepsOrder(path.left);
      assert Inorder(Node(Black, Node(Red, d, s, b), y, a)) == Inorder(path.left);
      SameInorder(path.up, Rise(path, t), Node(path.color, Node(Black, Node(Red, d, s, b), y, a), path.item, t));
    }
  }

  lemma OuterNephewOrder(path: Path, t: Tree)
    requires !path.Top? && Sibling(path).Node?
    ensures path.Left? && path.right.right.Node? ==>
      var Node(_, a, s, d) := path.right;
      Inorder(Plug(path.up, Node(path.color, Node(Black, t, path.item, a), s, d.(color := Black)))) ==
        Inorder(Plug(path, t))
    ensures path.Right? && path.left.left.Node? ==>
      var Node(_, d, s, a) := path.left;
      Inorder(Plug(path.up, Node(path.color, d.(color := Black), s, Node(Black, a, path.item, t)))) ==
        Inorder(Plug(path, t))
  {
    if path.Left? && path.right.right.Node? {
      var Node(_, a, s, d) := path.right;
      RotateLeftKeepsOrder(Rise(path, t));
      SameInorder(path.up, Rise(path, t), Node(path.color, Node(Black, t, path.item, a), s, d.(color := Black)));
    } else if path.Right? && path.left.left.Node? {
      var Node(_, d, s, a) := path.left;
      RotateRightKeepsOrder(Rise(path, t));
      SameInorder(path.up, Rise(path, t), Node(path.color, d.(color := Black), s, Node(Black, a, path.item, t)));
    }
  }

  /** With a red inner nephew only, it is rotated up so that the outer nephew is red. */
  lemma RemoveInnerNephewLeftColors(path: Path, t: Tree, k: nat)
    requires ShortFocus(path, t, k) && path.Left? && path.right.Node? && path.right.color == Black
    requires IsRed(path.right.left) && !IsRed(path.right.right)
    ensures var Node(_, Node(_, a, y, b), s, d) := path.right;
      var path' := Left(path.up, path.color, path.item, Node(Black, a, y, Node(Red, b, s, d)));
      ShortFocus(path', t, k) && Inorder(Plug(path', t)) == Inorder(Plug(path, t))
  {
    InnerNephewOrder(path, t);
    var Node(_, Node(_, a, y, b), s, d) := path.right;
    assert NoRedRed(path.right.left) && Balanced(path.right.left, k);
    assert NoRedRed(Node(Red, b, s, d)) && Balanced(Node(Red, b, s, d), k);
  }

  lemma RemoveInnerNephewRightColors(path: Path, t: Tree, k: nat)
    requires ShortFocus(path, t, k) && path.Right? && path.left.Node? && path.left.color == Black
    requires IsRed(path.left.right) && !IsRed(path.left.left)
    ensures var Node(_, d, s, Node(_, b, y, a)) := path.left;
      var path' := Right(path.up, path.color, path.item, Node(Black, Node(Red, d, s, b), y, a));
      ShortFocus(path', t, k) && Inorder(Plug(path', t)) == Inorder(Plug(path, t))
  {
    InnerNephewOrder(path, t);
    var Node(_, d, s, Node(_, b, y, a)) := path.left;
    assert NoRedRed(path.left.right) && Balanced(path.left.right, k);
    assert NoRedRed(Node(Red, d, s, b)) && Balanced(Node(Red, d, s, b), k);
  }

  /** With a red outer nephew, one rotation at the parent restores the missing black node. */
  lemma RemoveOuterNephewLeftColors(path: Path, t: Tree, k: nat)
    requires ShortFocus(path, t, k) && path.Left? && !IsRed(t)
    requires path.right.Node? && path.right.color == Black && IsRed(path.right.right)
    ensures var Node(_, a, s, d) := path.right;
      var f := Node(path.color, Node(Black, t, path.item, a), s, d.(color := Black));
      ZipRedBlack(path.up, f, if path.color == Black then k + 2 else k + 1)
        && Inorder(Plug(path.up, f)) == Inorder(Plug(path, t))
  {
    OuterNephewOrder(path, t);
    assert PathNoRedRed(path.up) && PathBalanced(path.up, if path.color == Black then k + 2 else k + 1)
      && TopBlack(path.up);
    var Node(_, a, s, d) := path.right;
    assert NoRedRed(d) && Balanced(d, k) && NoRedRed(a) && Balanced(a, k);
    var l, r := Node(Black, t, path.item, a), d.(color := Black);
    assert NoRedRed(l) && Balanced(l, k + 1) && NoRedRed(r) && Balanced(r, k + 1);
  }

  lemma RemoveOuterNephewRightColors(path: Path, t: Tree, k: nat)
    requires ShortFocus(path, t, k) && path.Right? && !IsRed(t)
    requires path.left.Node? && path.left.color == Black && IsRed(path.left.left)
    ensures var Node(_, d, s, a) := path.left;
      var f := Node(path.color, d.(color := Black), s, Node(Black, a, path.item, t));
      ZipRedBlack(path.up, f, if path.color == Black then k + 2 else k + 1)
        && Inorder(Plug(path.up, f)) == Inorder(Plug(path, t))
  {
    OuterNephewOrder(path, t);
    assert PathNoRedRed(path.up) && PathBalanced(path.up, if path.color == Black then k + 2 else k + 1)
      && TopBlack(path.up);
    var Node(_, d, s, a) := path.left;
    assert NoRedRed(d) && Balanced(d, k) && NoRedRed(a) && Balanced(a, k);
    var l, r := d.(color := Black), Node(Black, a, path.item, t);
    assert NoRedRed(l) && Balanced(l, k + 1) && NoRedRed(r) && Balanced(r, k + 1);
  }

  /** A red short focus is repaired by turning it black; at the root nothing is missing. */
  lemma RemoveDone(path: Path, t: Tree, k: nat)
    requires ShortFocus(path, t, k) && (IsRed(t) || path.Top?)
    ensures RedBlack(Plug(path, Blackened(t))) && Inorder(Plug(path, Blackened(t))) == Inorder(Plug(path, t))
  {
    SameInorder(path, t, Blackened(t));
    if t.Leaf? || t.color == Black {
      ZipPlug(path, t, k);
    } else {
      ZipPlug(path, t.(color := Black), k + 1);
    }
  }

  /** The measure of the loop of RB_REMOVE_COLOR.  A red focus ends the loop, so the turn
      that sinks the focus below a red sibling's place still makes progress. */
  ghost function RemoveMeasure(path: Path, t: Tree): nat {
    if IsRed(t) then 0 else 1 + Depth(path)
  }

  lemma RedBlackAtTop(t: Tree) returns (k: nat)
    requires RedBlack(t)
    ensures ShortFocus(Top, t, k) && !IsRed(t)
  {
    k :| Balanced(t, k);
  }
}
