/** Pure facts about descents, splices, neighbours and height in red-black trees. */
module RbOrder {
  import opened RbModel
  import opened RbFixup

  // ----- descending by key

  ghost function FirstOf(s: seq<Item>): Item? {
    if s == [] then null else s[0]
  }

  /** Everything off the path lies on the proper side of `key`. */
  ghost predicate Narrowed(path: Path, key: int) {
    && (forall y :: y in Before(path) ==> y.sockId < key)
    && (forall y :: y in After(path) ==> key < y.sockId)
  }

  lemma NarrowLeft(path: Path, t: Tree, key: int)
    requires t.Node? && Bst(t) && Narrowed(path, key) && key < t.item.sockId
    ensures Narrowed(Left(path, t.color, t.item, t.right), key) && Bst(t.left)
    ensures FirstOf(After(Left(path, t.color, t.item, t.right))) == t.item
  {
    forall y | y in Inorder(t.right) ensures key < y.sockId { ElemsInorder(t.right, y); }
  }

  lemma NarrowRight(path: Path, t: Tree, key: int)
    requires t.Node? && Bst(t) && Narrowed(path, key) && t.item.sockId < key
    ensures Narrowed(Right(path, t.color, t.item, t.left), key) && Bst(t.right)
    ensures FirstOf(After(Right(path, t.color, t.item, t.left))) == FirstOf(After(path))
  {
    forall y | y in Inorder(t.left) ensures y.sockId < key { ElemsInorder(t.left, y); }
  }

  /** A search starts at the root. */
  lemma SearchStart(t: Tree, key: int)
    requires Sorted(Inorder(t))
    ensures Bst(t) && Narrowed(Top, key) && FirstOf(After(Top)) == null
  {
    SortedBst(t);
  }

  lemma NotThere(path: Path, key: int, x: Item)
    requires Narrowed(path, key) && x in Elems(Plug(path, Leaf))
    ensures x.sockId != key
  {
    ElemsInorder(Plug(path, Leaf), x);
    InorderPlug(path, Leaf);
  }

  /** Where the search for a missing key ends, the first item after the path is the next larger one. */
  lemma FirstAfter(t: Tree, path: Path, key: int, first: Item?)
    requires t == Plug(path, Leaf) && Sorted(Inorder(t)) && Narrowed(path, key)
    requires first == FirstOf(After(path))
    ensures first != null ==> first in Elems(t) && first.sockId >= key
    ensures forall x :: x in Elems(t) && x.sockId >= key ==> first != null && first.sockId <= x.sockId
  {
    InorderPlug(path, Leaf);
    var s, n := Inorder(t), |Before(path)|;
    assert s == Before(path) + After(path);
    if first != null {
      assert s[n] == first && first in After(path);
      ElemsInorder(t, first);
    }
    forall x | x in Elems(t) && x.sockId >= key ensures first != null && first.sockId <= x.sockId {
      ElemsInorder(t, x);
      var i :| 0 <= i < |s| && s[i] == x;
      assert i < n ==> x in Before(path);
    }
  }

  lemma SortedInsert(a: seq<Item>, x: Item, b: seq<Item>)
    requires Sorted(a + b)
    requires forall y :: y in a ==> y.sockId < x.sockId
    requires forall y :: y in b ==> x.sockId < y.sockId
    ensures Sorted(a + [x] + b)
  {
    assert forall i :: 0 <= i < |a| ==> a[i] == (a + b)[i];
    assert forall i :: 0 <= i < |b| ==> b[i] == (a + b)[|a| + i];
    SortedJoin(a, x, b);
  }

  /** In an increasing sequence an item stands at one place only. */
  lemma SortedIndex(s: seq<Item>, i: nat, j: nat)
    requires Sorted(s) && i < |s| && j < |s| && s[i] == s[j]
    ensures i == j
  {
  }

  /** The item that follows `e`, or null after the last. */
  ghost function ItemAfter(s: seq<Item>, e: Item): Item? {
    if |s| < 2 then null else if s[0] == e then s[1] else ItemAfter(s[1..], e)
  }

  /** The item that precedes `e`, or null before the first. */
  ghost function ItemBefore(s: seq<Item>, e: Item): Item? {
    if |s| < 2 then null else if s[1] == e then s[0] else ItemBefore(s[1..], e)
  }

  lemma {:induction false} Neighbours(s: seq<Item>, i: nat)
    requires Sorted(s) && i < |s|
    ensures ItemAfter(s, s[i]) == if i + 1 < |s| then s[i + 1] else null
    ensures ItemBefore(s, s[i]) == if i > 0 then s[i - 1] else null
  {
    if |s| >= 2 {
      if i > 0 {
        Neighbours(s[1..], i - 1);
      } else {
        NothingBeforeFirst(s, s[0]);
      }
    }
  }

  lemma {:induction false} NothingBeforeFirst(s: seq<Item>, e: Item)
    requires forall i :: 0 < i < |s| ==> s[i] != e
    ensures ItemBefore(s, e) == null
  {
    if |s| >= 2 {
      NothingBeforeFirst(s[1..], e);
    }
  }

  /** In a sorted sequence the item before the next one is the item itself, and the other way
      round; the next one has the least of the greater keys. */
  lemma BeforeInvertsAfter(s: seq<Item>, e: Item)
    requires Sorted(s) && e in s
    ensures var r := ItemAfter(s, e);
      r != null ==> r in s && ItemBefore(s, r) == e
    ensures var r := ItemAfter(s, e);
      r != null ==> forall x :: x in s && x.sockId > e.sockId ==> x.sockId >= r.sockId
    ensures var r := ItemBefore(s, e); r != null ==> r in s && ItemAfter(s, r) == e
  {
    var i :| 0 <= i < |s| && s[i] == e;
    Neighbours(s, i);
    if i + 1 < |s| {
      Neighbours(s, i + 1);
    }
    if i > 0 {
      Neighbours(s, i - 1);
    }
  }

  lemma SortedDrop(a: seq<Item>, x: Item, b: seq<Item>)
    requires Sorted(a + [x] + b)
    ensures Sorted(a + b)
  {
    var s, s' := a + [x] + b, a + b;
    assert forall i :: 0 <= i < |s'| ==> s'[i] == s[if i < |a| then i else i + 1];
  }

  /** A red leaf put where the search for its key ended. */
  lemma InsertedLeaf(path: Path, x: Item) returns (k: nat)
    requires RedBlack(Plug(path, Leaf)) && Sorted(Inorder(Plug(path, Leaf))) && Narrowed(path, x.sockId)
    ensures RedFocus(path, Node(Red, Leaf, x, Leaf), k)
    ensures Sorted(Inorder(Plug(path, Node(Red, Leaf, x, Leaf))))
  {
    k := PlugZip(path, Leaf);
    InorderPlug(path, Leaf);
    InorderPlug(path, Node(Red, Leaf, x, Leaf));
    assert Before(path) + [] + After(path) == Before(path) + After(path);
    assert Inorder(Node(Red, Leaf, x, Leaf)) == [x];
    SortedInsert(Before(path), x, After(path));
  }

  // ----- focusing on a given item

  lemma {:induction false} FocusOn(t: Tree, x: Item) returns (path: Path, f: Tree)
    requires x in Elems(t)
    ensures Plug(path, f) == t && f.Node? && f.item == x
  {
    path, f := FocusBelow(Top, t, x);
  }

  lemma {:induction false} FocusBelow(up: Path, t: Tree, x: Item) returns (path: Path, f: Tree)
    requires x in Elems(t)
    ensures Plug(path, f) == Plug(up, t) && f.Node? && f.item == x
    decreases t
  {
    if t.item == x {
      path, f := up, t;
    } else if x in Elems(t.left) {
      path, f := FocusBelow(Left(up, t.color, t.item, t.right), t.left, x);
    } else {
      path, f := FocusBelow(Right(up, t.color, t.item, t.left), t.right, x);
    }
  }

  // ----- neighbours

  /** Where the focus node stands in the order. */
  lemma FocusIndex(path: Path, t: Tree)
    requires t.Node?
    ensures var s, i := Inorder(Plug(path, t)), |Before(path)| + |Inorder(t.left)|;
      i < |s| && s[i] == t.item && |s| == i + 1 + |Inorder(t.right)| + |After(path)|
  {
    InorderPlug(path, t);
  }

  /** How many items precede and follow the focus, when the focus moves by one link. */
  lemma MoveCounts(path: Path, t: Tree)
    ensures !path.Top? && path.Left? ==>
      |Before(path)| == |Before(path.up)| && |After(path)| == 1 + |Inorder(path.right)| + |After(path.up)|
    ensures !path.Top? && path.Right? ==>
      |After(path)| == |After(path.up)| && |Before(path)| == |Before(path.up)| + |Inorder(path.left)| + 1
    ensures |Inorder(t)| == if t.Leaf? then 0 else |Inorder(t.left)| + 1 + |Inorder(t.right)|
  {
  }

  lemma TopCounts()
    ensures Before(Top) == [] && After(Top) == []
  {
  }

  ghost predicate AllRight(rel: Path) {
    rel.Top? || (rel.Right? && AllRight(rel.up))
  }

  ghost predicate AllLeft(rel: Path) {
    rel.Top? || (rel.Left? && AllLeft(rel.up))
  }

  lemma {:induction false} NothingBefore(rel: Path)
    requires AllLeft(rel)
    ensures Before(rel) == []
  {
    if rel.Left? {
      NothingBefore(rel.up);
    }
  }

  lemma {:induction false} NothingAfter(rel: Path)
    requires AllRight(rel)
    ensures After(rel) == []
  {
    if rel.Right? {
      NothingAfter(rel.up);
    }
  }

  /** The last node on a leftmost (rightmost) path is the first (last) item. */
  lemma Extremes(path: Path)
    requires AllLeft(path) || AllRight(path)
    ensures !path.Top? ==> Plug(path, Leaf).Node? && Inorder(Plug(path, Leaf)) != []
    ensures !path.Top? && AllLeft(path) ==> path.item == Inorder(Plug(path, Leaf))[0]
    ensures !path.Top? && AllRight(path) ==> path.item == Inorder(Plug(path, Leaf))[|Inorder(Plug(path, Leaf))| - 1]
  {
    if !path.Top? {
      PlugNode(path, Leaf);
      FocusIndex(path.up, Rise(path, Leaf));
      if AllLeft(path) {
        NothingBefore(path.up);
      }
      if AllRight(path) {
        NothingAfter(path.up);
      }
    }
  }

  // ----- taking an item out

  /** Cutting the node at the focus, which has at most the child `c`, out of the tree. */
  lemma SpliceColors(path: Path, t: Tree, c: Tree) returns (k: nat)
    requires t.Node? && RedBlack(Plug(path, t))
    requires (t.left.Leaf? && c == t.right) || (t.right.Leaf? && c == t.left)
    ensures t.color == Black ==> ShortFocus(path, c, k)
    ensures t.color == Red ==> ZipRedBlack(path, c, k)
  {
    k := PlugZip(path, t);
    if t.color == Black {
      k := k - 1;
      assert NoRedRed(c);
    }
  }

  lemma OnlyChildInorder(t: Tree, c: Tree)
    requires t.Node? && ((t.left.Leaf? && c == t.right) || (t.right.Leaf? && c == t.left))
    ensures Inorder(c) == Inorder(t.left) + Inorder(t.right)
  {
  }

  lemma SpliceOrder(path: Path, t: Tree, c: Tree)
    requires t.Node? && ((t.left.Leaf? && c == t.right) || (t.right.Leaf? && c == t.left))
    ensures var a, b := Before(path) + Inorder(t.left), Inorder(t.right) + After(path);
      Inorder(Plug(path, t)) == a + [t.item] + b && Inorder(Plug(path, c)) == a + b
  {
    hide Before, After, Plug;
    InorderPlug(path, t);
    InorderPlug(path, c);
    OnlyChildInorder(t, c);
    Cut(Before(path), Inorder(t.left), t.item, Inorder(t.right), After(path));
  }

  lemma Cut(p: seq<Item>, l: seq<Item>, x: Item, r: seq<Item>, q: seq<Item>)
    ensures p + (l + [x] + r) + q == (p + l) + [x] + (r + q)
    ensures p + (l + r) + q == (p + l) + (r + q)
  {
  }

  /** `rel`, taken from a subtree's root, continued upwards by `base`. */
  ghost function Append(rel: Path, base: Path): Path {
    match rel
    case Top => base
    case Left(up, c, x, t) => Left(Append(up, base), c, x, t)
    case Right(up, c, x, t) => Right(Append(up, base), c, x, t)
  }

  lemma {:induction false} PlugAppend(rel: Path, base: Path, t: Tree)
    ensures Plug(Append(rel, base), t) == Plug(base, Plug(rel, t))
  {
    if !rel.Top? {
      PlugAppend(rel.up, base, Rise(rel, t));
    }
  }

  /** The colours of a path do not depend on which item stands at its start. */
  lemma {:induction false} AppendColors(rel: Path, base: Path, base': Path, k: nat)
    requires base.Right? && base'.Right? && base' == Right(base.up, base.color, base'.item, base.left)
    ensures PathNoRedRed(Append(rel, base)) == PathNoRedRed(Append(rel, base'))
    ensures PathBalanced(Append(rel, base), k) == PathBalanced(Append(rel, base'), k)
    ensures TopBlack(Append(rel, base)) == TopBlack(Append(rel, base'))
    ensures PathRed(Append(rel, base)) == PathRed(Append(rel, base'))
  {
    if !rel.Top? {
      AppendColors(rel.up, base, base', if rel.color == Black then k + 1 else k);
    }
  }

  /** Replacing a node by its in-order successor removes exactly that node's item. */
  lemma SuccessorOrder(path: Path, t: Tree, rel: Path, s: Item, cs: Color, sr: Tree)
    requires t.Node? && AllLeft(rel) && t.right == Plug(rel, Node(cs, Leaf, s, sr))
    ensures var a, b := Before(path) + Inorder(t.left), Inorder(t.right) + After(path);
      && Inorder(Plug(path, t)) == a + [t.item] + b
      && Inorder(Plug(path, Node(t.color, t.left, s, Plug(rel, sr)))) == a + b
  {
    NothingBefore(rel);
    InorderPlug(rel, Node(cs, Leaf, s, sr));
    InorderPlug(rel, sr);
    var m := Inorder(sr) + After(rel);
    SuccessorFirst(s, Inorder(sr), After(rel));
    InorderPlug(path, t);
    InorderPlug(path, Node(t.color, t.left, s, Plug(rel, sr)));
    CutBefore(Before(path), Inorder(t.left), t.item, s, m, After(path));
  }

  lemma SuccessorFirst(s: Item, m: seq<Item>, q: seq<Item>)
    ensures [] + ([] + [s] + m) + q == [s] + (m + q)
    ensures [] + m + q == m + q
  {
  }

  lemma CutBefore(p: seq<Item>, l: seq<Item>, x: Item, s: Item, m: seq<Item>, q: seq<Item>)
    ensures p + (l + [x] + ([s] + m)) + q == (p + l) + [x] + (([s] + m) + q)
    ensures p + (l + [s] + m) + q == (p + l) + (([s] + m) + q)
  {
  }

  /** After the successor took its place, the colours fit for the fix-up (or need none). */
  lemma SuccessorColors(rel: Path, base: Path, base': Path, s: Tree, c: Tree, k: nat)
    requires base.Right? && base'.Right? && base' == Right(base.up, base.color, base'.item, base.left)
    requires s.Node? && s.color == Black ==> ShortFocus(Append(rel, base), c, k)
    requires s.Node? && s.color == Red ==> ZipRedBlack(Append(rel, base), c, k)
    ensures s.Node? && s.color == Black ==> ShortFocus(Append(rel, base'), c, k)
    ensures s.Node? && s.color == Red ==> RedBlack(Plug(Append(rel, base'), c))
    ensures !Append(rel, base').Top? && Append(rel, base').item == if rel.Top? then base'.item else rel.item
  {
    AppendColors(rel, base, base', k);
    AppendColors(rel, base, base', k + 1);
    if s.Node? && s.color == Red {
      ZipPlug(Append(rel, base'), c, k);
    }
  }

  // ----- height

  ghost function Height(t: Tree): nat {
    if t.Leaf? then 0 else 1 + if Height(t.left) > Height(t.right) then Height(t.left) else Height(t.right)
  }

  ghost function Size(t: Tree): nat {
    if t.Leaf? then 0 else Size(t.left) + 1 + Size(t.right)
  }

  ghost function Pow2(n: nat): nat {
    if n == 0 then 1 else 2 * Pow2(n - 1)
  }

  lemma {:induction false} BlackHeightBounds(t: Tree, k: nat)
    requires NoRedRed(t) && Balanced(t, k)
    ensures Height(t) <= 2 * k + (if IsRed(t) then 1 else 0)
    ensures Pow2(k) <= Size(t) + 1
  {
    if t.Node? {
      var k' := if t.color == Black then k - 1 else k;
      BlackHeightBounds(t.left, k');
      BlackHeightBounds(t.right, k');
    }
  }

  lemma {:induction false} Pow2Add(m: nat, n: nat)
    ensures Pow2(m + n) == Pow2(m) * Pow2(n)
  {
    if m > 0 {
      Pow2Add(m - 1, n);
      assert Pow2(m + n) == 2 * Pow2(m - 1 + n);
    }
  }

  lemma {:induction false} Pow2Monotone(m: nat, n: nat)
    requires m <= n
    ensures Pow2(m) <= Pow2(n)
  {
    if m < n {
      Pow2Monotone(m, n - 1);
    }
  }

  /** A red-black tree of n items has height at most 2 log2(n + 1). */
  lemma HeightBound(t: Tree)
    requires RedBlack(t)
    ensures Pow2(Height(t)) <= (Size(t) + 1) * (Size(t) + 1)
  {
    var k: nat :| Balanced(t, k);
    BlackHeightBounds(t, k);
    Pow2Monotone(Height(t), k + k);
    Pow2Add(k, k);
    Squares(Pow2(k), Size(t) + 1);
  }

  lemma {:induction false} SizeIsCount(t: Tree)
    requires Distinct(t)
    ensures |Elems(t)| == Size(t)
  {
    if t.Node? {
      SizeIsCount(t.left);
      SizeIsCount(t.right);
    }
  }

  lemma Squares(a: nat, b: nat)
    requires a <= b
    ensures a * a <= b * b
  {
    assert a * a <= a * b <= b * b;
  }
}
