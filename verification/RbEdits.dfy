/** Adding a leaf, cutting a node out and putting its successor in its place, in memory. */
module RbEdits {
  import opened RbModel
  import opened RbOrder
  import opened RbHeap

  /** Nothing but `a`, `b` and `c` changes, of what stays. */
  ghost predicate Writes(h: Heap, h': Heap, a: Item?, b: Item?, c: Item?) {
    forall z :: z in h && z in h' && z != a && z != b && z != c ==> h'[z] == h[z]
  }

  lemma WritesAgree(h: Heap, h': Heap, a: Item?, b: Item?, c: Item?, s: set<Item>, z: Item?)
    requires Writes(h, h', a, b, c)
    requires forall x :: x in s && x in h ==> x in h'
    requires (a == null || a !in s || a == z) && (b == null || b !in s || b == z) && (c == null || c !in s || c == z)
    ensures AgreeBut(h, h', s, z)
  {
  }

  lemma LinkLeaf(h: Heap, h': Heap, root: Item?, root': Item?, path: Path, x: Item)
    requires Holds(h, root, Plug(path, Leaf)) && x !in h
    requires h'.Keys == h.Keys + {x} && h'[x] == Cell(null, null, Owner(path), Red)
    requires Redirected(h, h', root, root', path, x) && Writes(h, h', x, Owner(path), null)
    ensures Holds(h', root', Plug(path, Node(Red, Leaf, x, Leaf)))
  {
    HoldsZip(h, root, path, Leaf);
    var t := Node(Red, Leaf, x, Leaf);
    assert Elems(t) == {x} && Elems(Leaf) == {};
    WritesAgree(h, h', x, Owner(path), null, PathElems(path), Owner(path));
    Redirect(h, h', root, root', path, null, x);
    assert Stored(h', t, Owner(path));
    HoldsZip(h', root', path, t);
  }

  /** Cutting out the focus node, whose only subtree is `c`. */
  lemma SpliceNode(h: Heap, h': Heap, root: Item?, root': Item?, path: Path, t: Tree, c: Tree)
    requires t.Node? && Zip(h, root, path, t)
    requires (t.left.Leaf? && c == t.right) || (t.right.Leaf? && c == t.left)
    requires h'.Keys == h.Keys - {t.item} && (c.Node? ==> Reparented(h, h', c.item, Owner(path)))
    requires Redirected(h, h', root, root', path, Root(c)) && Writes(h, h', Root(c), Owner(path), null)
    ensures Zip(h', root', path, c)
  {
    assert Stored(h, c, t.item);
    assert c.Node? ==> c.item in Elems(c);
    assert !path.Top? ==> path.item in PathElems(path);
    assert Elems(t) == Elems(c) + {t.item};
    WritesAgree(h, h', Root(c), Owner(path), null, Elems(c), Root(c));
    Reparent(h, h', c, t.item, Owner(path));
    WritesAgree(h, h', Root(c), Owner(path), null, PathElems(path), Owner(path));
    Redirect(h, h', root, root', path, t.item, Root(c));
  }

  lemma ReplaceStored(h: Heap, h': Heap, t: Tree, p: Item?, s: Item)
    requires t.Node? && Stored(h, t, p) && Distinct(t) && s in h' && h'[s] == h[t.item]
    requires AgreeBut(h, h', Elems(t.left), Root(t.left)) && AgreeBut(h, h', Elems(t.right), Root(t.right))
    requires (t.left.Node? ==> Reparented(h, h', t.left.item, s))
      && (t.right.Node? ==> Reparented(h, h', t.right.item, s))
    ensures Stored(h', Node(t.color, t.left, s, t.right), p)
  {
    Reparent(h, h', t.left, t.item, s);
    Reparent(h, h', t.right, t.item, s);
  }

  /** Giving the place, the links and the colour of the focus node to `s`. */
  lemma ReplaceNode(h: Heap, h': Heap, root: Item?, root': Item?, path: Path, t: Tree, s: Item)
    requires t.Node? && Zip(h, root, path, t) && s !in h
    requires h'.Keys == h.Keys - {t.item} + {s} && h'[s] == h[t.item]
    requires (t.left.Node? ==> Reparented(h, h', t.left.item, s))
      && (t.right.Node? ==> Reparented(h, h', t.right.item, s))
    requires Redirected(h, h', root, root', path, s) && Writes(h, h', Root(t.left), Root(t.right), Owner(path))
    ensures Zip(h', root', path, Node(t.color, t.left, s, t.right))
  {
    var l, r := t.left, t.right;
    assert l.Node? ==> l.item in Elems(l);
    assert r.Node? ==> r.item in Elems(r);
    assert !path.Top? ==> path.item in PathElems(path);
    WritesAgree(h, h', Root(l), Root(r), Owner(path), Elems(l), Root(l));
    WritesAgree(h, h', Root(l), Root(r), Owner(path), Elems(r), Root(r));
    WritesAgree(h, h', Root(l), Root(r), Owner(path), PathElems(path), Owner(path));
    ReplaceStored(h, h', t, Owner(path), s);
    Redirect(h, h', root, root', path, t.item, s);
  }

  /** The nodes that a splice writes are different, and stay. */
  lemma SpliceReady(h: Heap, root: Item?, path: Path, t: Tree, c: Tree)
    requires Holds(h, root, Plug(path, t)) && t.Node? && (c == t.left || c == t.right)
    ensures Zip(h, root, path, t) && t.item in h
    ensures c.Node? ==> c.item in h && c.item != t.item && Owner(path) != c.item
    ensures !path.Top? ==> path.item in h && path.item != t.item
  {
    HoldsZip(h, root, path, t);
    assert Stored(h, c, t.item);
    assert c.Node? ==> c.item in Elems(c) && c.item in Elems(t);
    assert !path.Top? ==> path.item in PathElems(path);
  }

  /** The nodes written when a node's place is taken are different. */
  lemma TakeReady(h: Heap, root: Item?, path: Path, t: Tree)
    requires Holds(h, root, Plug(path, t)) && t.Node?
    ensures Zip(h, root, path, t) && t.item in h
    ensures h[t.item] == Cell(Root(t.left), Root(t.right), Owner(path), t.color)
    ensures t.left.Node? ==>
      t.left.item in h && t.left.item != t.item && t.left.item != Owner(path) && t.left.item != Root(t.right)
    ensures t.right.Node? ==> t.right.item in h && t.right.item != t.item && t.right.item != Owner(path)
    ensures !path.Top? ==> path.item in h && path.item != t.item
  {
    SpliceReady(h, root, path, t, t.left);
    SpliceReady(h, root, path, t, t.right);
    assert t.left.Node? ==> t.left.item in Elems(t.left);
    assert t.right.Node? ==> t.right.item in Elems(t.right);
  }

  /** The links between the removed item and its successor do not lead back to the item. */
  lemma NotInRel(h: Heap, root: Item?, path: Path, t: Tree, rel: Path, s: Tree)
    requires Holds(h, root, Plug(path, t)) && t.Node? && t.right == Plug(rel, s) && s.Node?
    ensures s.item != t.item && (!rel.Top? ==> rel.item != t.item)
  {
    HoldsZip(h, root, path, t);
    PlugMembers(rel, s);
  }

  lemma PlugMembers(rel: Path, s: Tree)
    requires s.Node?
    ensures s.item in Elems(Plug(rel, s)) && (!rel.Top? ==> rel.item in Elems(Plug(rel, s)))
  {
    ElemsPlug(rel, s);
  }

  lemma RelOwner(rel: Path, base: Path)
    requires base.Right?
    ensures Owner(Append(rel, base)) == if rel.Top? then base.item else rel.item
  {
  }
}
