/** Deletion on the linked nodes of sglib's red-black tree. The preconditions are those under
    which the C code's `assert_beebs` checks, each an endless loop when false, all pass. */
module RbHeapDeletion {
  import opened RbTree
  import opened RbDeletion
  import opened RbHeap

  method FixRedSiblingDiscrepancy(a: Node, d: Dir, ghost t: Tree) returns (root: Node)
    requires Rep(a, t) && Distinct(t) && Deficient(t, d) && IsRed(Sub(t, d))
    modifies Nodes(t)
    ensures Rep(root, FixRedSibling(t, d))
  {
    FixRedSiblingMends(t, d);
    hide Rep, Nodes, Distinct, Deficient, Balanced, NoRedRed, BlackHeight;
    ghost var l, r := Sub(t, d), Sub(t, Flip(d));
    ghost var x, y := Sub(l, d), Sub(l, Flip(d));
    ghost var yl, yr := Sub(y, d), Sub(y, Flip(d));
    AllAllocated(t);
    Open(a, t, d);
    Open(Get(a, d), l, d);
    var ar := Get(a, Flip(d));
    var b := Get(a, d);
    var bl, br := Get(b, d), Get(b, Flip(d));
    var c := br;
    Open(c, y, d);
    var cl, cr := Get(c, d), Get(c, Flip(d));
    if (cl == null || cl.color == Black) && (cr == null || cr.color == Black) {
      PaintNode(c, Red, y);
      RotateSingle(a, b, d, bl, c, ar, Black, a.color, x, Paint(y, Red), r);
      root := b;
    } else if cr != null && cr.color == Red {
      root := LiftGrandchild(a, b, c, cr, d, t);
    } else {
      PaintNode(cl, Black, yl);
      RotateDouble(a, b, c, d, bl, cl, cr, ar, b.color, c.color, a.color, x, Paint(yl, Black), yr, r);
      root := c;
    }
  }

  /** The deepest rotation: `w`, two levels below the sibling `b`, becomes the root. */
  method LiftGrandchild(a: Node, b: Node, c: Node, w: Node, d: Dir, ghost t: Tree) returns (root: Node)
    requires Rep(a, t) && Distinct(t) && t.T?
    requires Sub(t, d).T? && Sub(t, d).color == Red && Sub(t, d).node == b
    requires Sub(Sub(t, d), Flip(d)).T? && Sub(Sub(t, d), Flip(d)).node == c
    requires Sub(Sub(t, d), Flip(d)).color == Black
    requires IsRed(Sub(Sub(Sub(t, d), Flip(d)), Flip(d))) && Sub(Sub(Sub(t, d), Flip(d)), Flip(d)).node == w
    modifies Nodes(t)
    ensures Rep(root, FixRedSibling(t, d))
  {
    hide Rep, Nodes, Distinct;
    ghost var l, r := Sub(t, d), Sub(t, Flip(d));
    ghost var x, y := Sub(l, d), Sub(l, Flip(d));
    ghost var yl, z := Sub(y, d), Sub(y, Flip(d));
    ghost var zl, zr := Sub(z, d), Sub(z, Flip(d));
    AllAllocated(t);
    Open(a, t, d);
    Open(b, l, d);
    Open(c, y, d);
    Open(w, z, d);
    var bl, cl, ar := Get(b, d), Get(c, d), Get(a, Flip(d));
    var dl, dr := Get(w, d), Get(w, Flip(d));
    Link(c, d, cl, dl, Black, yl, zl);
    RotateDouble(a, b, w, d, bl, c, dr, ar, b.color, Black, a.color, x, Mk(d, yl, c, Black, zl), zr, r);
    root := w;
  }

  method FixDeletionDiscrepancy(tree: Node, d: Dir, ghost t: Tree) returns (root: Node, res: bool)
    requires Rep(tree, t) && Distinct(t) && Deficient(t, d)
    modifies Nodes(t)
    ensures Rep(root, FixDeletion(t, d).0) && res == FixDeletion(t, d).1
  {
    FixDeletionMends(t, d);
    hide Rep, Nodes, Distinct, Deficient, Balanced, NoRedRed, BlackHeight, FixRedSibling;
    ghost var l, r := Sub(t, d), Sub(t, Flip(d));
    ghost var x, y := Sub(l, d), Sub(l, Flip(d));
    AllAllocated(t);
    Open(tree, t, d);
    Open(Get(tree, d), l, d);
    var a, b := tree, Get(tree, d);
    var ar := Get(a, Flip(d));
    var bl, br := Get(b, d), Get(b, Flip(d));
    root, res := tree, false;
    if b.color == Red {
      root := FixRedSiblingDiscrepancy(a, d, t);
    } else if (bl == null || bl.color == Black) && (br == null || br.color == Black) {
      res := a.color == Black;
      PaintNode(b, Red, l);
      Link(a, d, b, ar, Black, Paint(l, Red), r);
    } else if bl != null && bl.color == Red && (br == null || br.color == Black) {
      PaintNode(bl, Black, x);
      RotateSingle(a, b, d, bl, br, ar, a.color, Black, Paint(x, Black), y, r);
      root := b;
    } else {
      var c := br;
      Open(c, y, d);
      var cl, cr := Get(c, d), Get(c, Flip(d));
      ghost var yl, yr := Sub(y, d), Sub(y, Flip(d));
      RotateDouble(a, b, c, d, bl, cl, cr, ar, b.color, a.color, Black, x, yl, yr, r);
      root := c;
    }
  }

  // ---- descent ----

  /** The tree between cutting the rightmost leaf of the right subtree and the fix-up. */
  lemma RightmostBelow(t: Tree)
    requires t.T? && t.right.T? && RedBlack(t) && Sorted(Elems(t))
    ensures Sorted(Elems(t.right)) && RedBlack(t.right)
    ensures
      var (r', leaf, deep) := DeleteRightmostLeaf(t.right);
      var t' := T(t.left, t.node, t.color, r');
      && Distinct(t') && Nodes(t') <= Nodes(t) && Nodes(r') <= Nodes(t.right)
      && (deep ==> Deficient(t', Left))
  {
    var (r', leaf, deep) := DeleteRightmostLeaf(t.right);
    var t' := T(t.left, t.node, t.color, r');
    DeleteRightmostLeafElems(t.right);
    DeleteRightmostLeafMends(t.right);
    assert Elems(t) == (Elems(t.left) + [t.node] + Elems(r')) + [leaf];
    SortedSplit(Elems(t'), leaf, []);
    assert Elems(t) == Elems(t') + [leaf] + [];
    SortedSplit(Elems(t.left), t.node, Elems(t.right));
    SortedDistinct(t');
    ElemsAreNodes(t.right);
    ElemsAreNodes(r');
    AllAllocated(r');
  }

  method CutRightmostLeaf(tree: Node, ghost t: Tree) returns (root: Node?, theLeaf: Node, res: bool)
    requires t.T? && Rep(tree, t) && RedBlack(t) && Sorted(Elems(t))
    modifies Nodes(t)
    ensures Rep(root, DeleteRightmostLeaf(t).0)
    ensures theLeaf == DeleteRightmostLeaf(t).1 && res == DeleteRightmostLeaf(t).2
    decreases t
  {
    hide Elems, Sorted, Balanced, NoRedRed, BlackHeight, Deficient, FixDeletion;
    AllAllocated(t);
    SortedDistinct(t);
    res := false;
    if tree.right == null {
      theLeaf := tree;
      if tree.left != null {
        if tree.color == Black && tree.left.color == Black { res := true; }
        PaintNode(tree.left, Black, t.left);
        root := tree.left;
      } else {
        root := null;
        res := tree.color == Black;
      }
    } else {
      RightmostBelow(t);
      var child, leaf, deepDecreased := CutRightmostLeaf(tree.right, t.right);
      theLeaf := leaf;
      tree.right := child;
      root := tree;
      if deepDecreased {
        root, res := FixDeletionDiscrepancy(tree, Left, T(t.left, tree, tree.color, DeleteRightmostLeaf(t.right).0));
      }
    }
  }

  lemma MemberBelow(t: Tree, e: Node)
    requires Sorted(Elems(t)) && RedBlack(t) && Member(t, e) && Comparable(t, e)
    ensures t.T? && Distinct(t)
    ensures Sorted(Elems(t.left)) && Sorted(Elems(t.right)) && RedBlack(t.left) && RedBlack(t.right)
    ensures Precedes(e, t.node) ==> Member(t.left, e) && Comparable(t.left, e)
    ensures Follows(e, t.node) ==> Member(t.right, e) && Comparable(t.right, e)
    ensures !Precedes(e, t.node) && !Follows(e, t.node) ==> e == t.node
  {
    MemberAside(t, e);
    SortedDistinct(t);
  }

  /** Replacing one child by a tree over fewer nodes. */
  lemma ShrinkChild(t: Tree, x: Tree, n: Node, d: Dir)
    requires t.T? && Distinct(t) && Distinct(x) && Nodes(x) <= Nodes(Sub(t, d))
    requires n == t.node || (n in Nodes(Sub(t, d)) && n !in Nodes(x))
    ensures
      var t' := Mk(d, x, n, t.color, Sub(t, Flip(d)));
      Distinct(t') && Nodes(t') <= Nodes(t)
  {
  }

  lemma DeficientLevel(t: Tree, x: Tree, n: Node, d: Dir)
    requires t.T? && RedBlack(t) && Mended(x, true, BlackHeight(Sub(t, d)), !IsRed(Sub(t, d)))
    ensures Deficient(Mk(d, x, n, t.color, Sub(t, Flip(d))), Flip(d))
  {
    hide Balanced, NoRedRed, BlackHeight;
    SubShape(t, d);
  }

  /** The tree between the recursive call on the left and the fix-up on that side. */
  lemma DeleteLeftBelow(t: Tree, e: Node)
    requires Sorted(Elems(t)) && RedBlack(t) && Member(t, e) && Comparable(t, e) && Precedes(e, t.node)
    ensures
      var (l', deep) := DeleteRecursive(t.left, e);
      var t' := T(l', t.node, t.color, t.right);
      && Distinct(t') && Nodes(t') <= Nodes(t) && Nodes(l') <= Nodes(t.left)
      && (deep ==> Deficient(t', Right))
  {
    MemberBelow(t, e);
    var (l', deep) := DeleteRecursive(t.left, e);
    DeleteRecursiveElems(t.left, e);
    DeleteRecursiveMends(t.left, e);
    RemovedMeaning(Elems(t.left), e);
    FewerNodes(t.left, l', e);
    SortedDistinct(l');
    hide Elems, Sorted, Member, Distinct, Nodes, Balanced, NoRedRed, BlackHeight;
    ShrinkChild(t, l', t.node, Left);
    if deep { DeficientLevel(t, l', t.node, Left); }
  }

  lemma DeleteRightBelow(t: Tree, e: Node)
    requires Sorted(Elems(t)) && RedBlack(t) && Member(t, e) && Comparable(t, e) && Follows(e, t.node)
    ensures
      var (r', deep) := DeleteRecursive(t.right, e);
      var t' := T(t.left, t.node, t.color, r');
      && Distinct(t') && Nodes(t') <= Nodes(t) && Nodes(r') <= Nodes(t.right)
      && (deep ==> Deficient(t', Left))
  {
    MemberBelow(t, e);
    var (r', deep) := DeleteRecursive(t.right, e);
    DeleteRecursiveElems(t.right, e);
    DeleteRecursiveMends(t.right, e);
    RemovedMeaning(Elems(t.right), e);
    FewerNodes(t.right, r', e);
    SortedDistinct(r');
    hide Elems, Sorted, Member, Distinct, Nodes, Balanced, NoRedRed, BlackHeight;
    ShrinkChild(t, r', t.node, Right);
    if deep { DeficientLevel(t, r', t.node, Right); }
  }

  /** The tree after the rightmost leaf of the left subtree took the deleted node's place. */
  lemma ReplacementBelow(t: Tree)
    requires t.T? && t.left.T? && Sorted(Elems(t)) && RedBlack(t)
    ensures Sorted(Elems(t.left)) && RedBlack(t.left)
    ensures
      var (l', leaf, deep) := DeleteRightmostLeaf(t.left);
      var t' := T(l', leaf, t.color, t.right);
      && Distinct(t') && Nodes(t') <= Nodes(t) && Nodes(l') <= Nodes(t.left)
      && leaf in Nodes(t.left)
      && (deep ==> Deficient(t', Right))
  {
    var (l', leaf, deep) := DeleteRightmostLeaf(t.left);
    DeleteRightmostLeafElems(t.left);
    DeleteRightmostLeafMends(t.left);
    SortedSplit(Elems(t.left), t.node, Elems(t.right));
    assert Elems(t.left) == Elems(l') + [leaf] + [];
    SortedSplit(Elems(l'), leaf, []);
    SortedDistinct(t);
    SortedDistinct(l');
    ElemsAreNodes(t.left);
    ElemsAreNodes(l');
    AllAllocated(l');
    assert leaf in Nodes(t.left) && leaf !in Nodes(l') && Nodes(l') <= Nodes(t.left);
    hide Elems, Sorted, Distinct, Nodes, Balanced, NoRedRed, BlackHeight;
    ShrinkChild(t, l', leaf, Left);
    if deep { DeficientLevel(t, l', leaf, Left); }
  }

  lemma FewerNodes(t: Tree, t': Tree, e: Node)
    requires Sorted(Elems(t)) && e in Elems(t) && Elems(t') == Removed(Elems(t), e)
    ensures Sorted(Elems(t')) && Nodes(t') <= Nodes(t)
  {
    RemovedMeaning(Elems(t), e);
    ElemsAreNodes(t);
    ElemsAreNodes(t');
    AllAllocated(t');
    var m: multiset<Node> := multiset(Elems(t));
    var m': multiset<Node> := multiset(Elems(t'));
    forall x: Node | x in Nodes(t') ensures x in Nodes(t) {
      assert x in m' && x in m;
    }
  }

  /** The node is found: its only child or the rightmost leaf of its left subtree takes its place. */
  method DeleteHere(tree: Node, ghost t: Tree) returns (root: Node?, res: bool)
    requires t.T? && Rep(tree, t) && RedBlack(t) && Sorted(Elems(t))
    modifies Nodes(t)
    ensures Rep(root, DeleteRecursive(t, tree).0) && res == DeleteRecursive(t, tree).1
  {
    hide Elems, Sorted, Balanced, NoRedRed, BlackHeight, Deficient, FixDeletion, DeleteRightmostLeaf;
    AllAllocated(t);
    SortedDistinct(t);
    root, res := null, false;
    if tree.left == null {
      if tree.right == null {
        res := tree.color == Black;
      } else {
        if tree.color == Black && tree.right.color == Black { res := true; }
        PaintNode(tree.right, Black, t.right);
        root := tree.right;
      }
    } else {
      ReplacementBelow(t);
      var child, theLeaf, deepDecreased := CutRightmostLeaf(tree.left, t.left);
      tree.left := child;
      theLeaf.left := tree.left;
      theLeaf.right := tree.right;
      theLeaf.color := tree.color;
      root := theLeaf;
      if deepDecreased {
        ghost var l' := DeleteRightmostLeaf(t.left).0;
        root, res := FixDeletionDiscrepancy(theLeaf, Right, T(l', theLeaf, theLeaf.color, t.right));
      }
    }
  }

  method DeleteNode(tree: Node?, elem: Node, ghost t: Tree) returns (root: Node?, res: bool)
    requires Rep(tree, t) && RedBlack(t) && Sorted(Elems(t)) && Member(t, elem) && Comparable(t, elem)
    modifies Nodes(t)
    ensures Rep(root, DeleteRecursive(t, elem).0) && res == DeleteRecursive(t, elem).1
    decreases t
  {
    hide Elems, Sorted, Member, Comparable, Precedes, Follows, Balanced, NoRedRed, BlackHeight, Deficient, FixDeletion,
         DeleteRightmostLeaf;
    AllAllocated(t);
    MemberBelow(t, elem);
    root, res := tree, false;
    if Precedes(elem, tree) {
      DeleteLeftBelow(t, elem);
      var child, deepDecreased := DeleteNode(tree.left, elem, t.left);
      tree.left := child;
      if deepDecreased {
        root, res := FixDeletionDiscrepancy(tree, Right, T(DeleteRecursive(t.left, elem).0, tree, tree.color, t.right));
      }
    } else if Follows(elem, tree) {
      DeleteRightBelow(t, elem);
      var child, deepDecreased := DeleteNode(tree.right, elem, t.right);
      tree.right := child;
      if deepDecreased {
        root, res := FixDeletionDiscrepancy(tree, Left, T(t.left, tree, tree.color, DeleteRecursive(t.right, elem).0));
      }
    } else {
      root, res := DeleteHere(tree, t);
    }
  }

  /** `sglib_delete`: the result represents a valid tree without exactly `elem`. */
  method Delete(tree: Node?, elem: Node, ghost t: Tree) returns (root: Node?)
    requires Rep(tree, t) && ValidTree(t) && Member(t, elem) && Comparable(t, elem)
    modifies Nodes(t)
    ensures Rep(root, RbDeletion.Delete(t, elem)) && ValidTree(RbDeletion.Delete(t, elem))
    ensures Elems(RbDeletion.Delete(t, elem)) == Removed(Elems(t), elem)
  {
    DeleteCorrect(t, elem);
    DeleteRecursiveElems(t, elem);
    FewerNodes(t, DeleteRecursive(t, elem).0, elem);
    SortedDistinct(DeleteRecursive(t, elem).0);
    var deepDecreased;
    root, deepDecreased := DeleteNode(tree, elem, t);
    if root != null {
      PaintNode(root, Black, DeleteRecursive(t, elem).0);
    }
  }
}
