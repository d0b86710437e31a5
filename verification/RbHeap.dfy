/** The linked-node algorithms of sglib's red-black tree, proved to compute the tree-value
    functions of `RbTree` and `RbDeletion` on the linked nodes. */
module RbHeap {
  import opened RbTree

  /** The nodes hanging off `p` are linked and coloured as the tree value `t` says. */
  ghost predicate Rep(p: Node?, t: Tree)
    reads Nodes(t)
  {
    match t
    case Nil => p == null
    case T(l, n, c, r) => p == n && n.color == c && Rep(n.left, l) && Rep(n.right, r)
  }

  /** No node occurs twice. */
  ghost predicate Distinct(t: Tree) {
    t.T? ==>
      && t.node !in Nodes(t.left) && t.node !in Nodes(t.right) && Nodes(t.left) !! Nodes(t.right)
      && Distinct(t.left) && Distinct(t.right)
  }

  /** Nodes of a tree value at hand exist already, so no call can create them afresh. */
  lemma {:induction false} AllAllocated(t: Tree)
    ensures forall o :: o in Nodes(t) ==> allocated(o)
  {
    if t.T? {
      AllAllocated(t.left);
      AllAllocated(t.right);
    }
  }

  function Get(n: Node, d: Dir): Node?
    reads n`left, n`right
  {
    if d == Left then n.left else n.right
  }

  /** The stores into one node: child `p` on side `d`, child `q` on the other, colour `c`. */
  method Link(n: Node, d: Dir, p: Node?, q: Node?, c: Color, ghost x: Tree, ghost y: Tree)
    requires Rep(p, x) && Rep(q, y) && n !in Nodes(x) && n !in Nodes(y)
    modifies n
    ensures Rep(n, Mk(d, x, n, c, y))
    ensures Nodes(Mk(d, x, n, c, y)) == Nodes(x) + {n} + Nodes(y)
  {
    if d == Left {
      n.left, n.right := p, q;
    } else {
      n.right, n.left := p, q;
    }
    n.color := c;
  }

  /** A single colour store. */
  method PaintNode(n: Node, c: Color, ghost t: Tree)
    requires t.T? && Rep(n, t) && Distinct(t)
    modifies n
    ensures Rep(n, Paint(t, c)) && Nodes(Paint(t, c)) == Nodes(t)
  {
    AllAllocated(t);
    n.color := c;
  }

  /** Reading a represented node: its fields, its subtrees and who is apart from whom. */
  lemma Open(p: Node?, t: Tree, d: Dir)
    requires t.T? && Rep(p, t) && Distinct(t)
    ensures p == t.node && p.color == t.color
    ensures Rep(Get(p, d), Sub(t, d)) && Rep(Get(p, Flip(d)), Sub(t, Flip(d)))
    ensures Distinct(Sub(t, d)) && Distinct(Sub(t, Flip(d)))
    ensures Nodes(t) == Nodes(Sub(t, d)) + {p} + Nodes(Sub(t, Flip(d)))
    ensures p !in Nodes(Sub(t, d)) && p !in Nodes(Sub(t, Flip(d)))
    ensures Nodes(Sub(t, d)) !! Nodes(Sub(t, Flip(d)))
    ensures Get(p, d) == null <==> Sub(t, d).Nil?
    ensures Get(p, Flip(d)) == null <==> Sub(t, Flip(d)).Nil?
    ensures Sub(t, d).T? ==> Get(p, d) == Sub(t, d).node && Get(p, d).color == Sub(t, d).color
    ensures Sub(t, Flip(d)).T? ==>
      Get(p, Flip(d)) == Sub(t, Flip(d)).node && Get(p, Flip(d)).color == Sub(t, Flip(d)).color
    ensures Sub(t, d).T? ==> Sub(t, d).node in Nodes(Sub(t, d))
    ensures Sub(t, Flip(d)).T? ==> Sub(t, Flip(d)).node in Nodes(Sub(t, Flip(d)))
  {
  }

  /** `n` hangs in none of the three trees. */
  ghost predicate Apart(n: Node, x: Tree, y: Tree, z: Tree) {
    n !in Nodes(x) && n !in Nodes(y) && n !in Nodes(z)
  }

  /** Single rotation: `b` comes up over `a`. */
  method RotateSingle(a: Node, b: Node, d: Dir, bl: Node?, br: Node?, ar: Node?, cb: Color, ca: Color,
                      ghost x: Tree, ghost y: Tree, ghost z: Tree)
    requires Rep(bl, x) && Rep(br, y) && Rep(ar, z)
    requires a != b && Apart(a, x, y, z) && Apart(b, x, y, z)
    modifies a, b
    ensures Rep(b, Mk(d, x, b, cb, Mk(d, y, a, ca, z)))
  {
    AllAllocated(x);
    AllAllocated(y);
    AllAllocated(z);
    hide Rep, Nodes;
    Link(a, d, br, ar, ca, y, z);
    Link(b, d, bl, a, cb, x, Mk(d, y, a, ca, z));
  }

  /** Double rotation: `c` comes up between `b` and `a`. */
  method RotateDouble(a: Node, b: Node, c: Node, d: Dir, bl: Node?, cl: Node?, cr: Node?, ar: Node?,
                      cb: Color, cc: Color, ca: Color,
                      ghost w: Tree, ghost x: Tree, ghost y: Tree, ghost z: Tree)
    requires Rep(bl, w) && Rep(cl, x) && Rep(cr, y) && Rep(ar, z)
    requires a != b && b != c && a != c
    requires Apart(a, w, x, y) && Apart(b, w, x, y) && Apart(c, w, x, y)
    requires a !in Nodes(z) && b !in Nodes(z) && c !in Nodes(z)
    modifies a, b, c
    ensures Rep(c, Mk(d, Mk(d, w, b, cb, x), c, cc, Mk(d, y, a, ca, z)))
  {
    AllAllocated(w);
    AllAllocated(x);
    AllAllocated(y);
    AllAllocated(z);
    hide Rep, Nodes;
    Link(b, d, bl, cl, cb, w, x);
    Link(a, d, cr, ar, ca, y, z);
    Link(c, d, b, a, cc, Mk(d, w, b, cb, x), Mk(d, y, a, ca, z));
  }

  method FixInsertionDiscrepancy(tree: Node, d: Dir, ghost t: Tree) returns (root: Node)
    requires t.T? && Sub(t, d).T? && Rep(tree, t) && Distinct(t)
    modifies Nodes(t)
    ensures Rep(root, FixInsertion(t, d))
  {
    hide Rep, Nodes, Distinct;
    ghost var l, r := Sub(t, d), Sub(t, Flip(d));
    ghost var x, y := Sub(l, d), Sub(l, Flip(d));
    AllAllocated(t);
    Open(tree, t, d);
    Open(Get(tree, d), l, d);
    root := tree;
    var tl, tr := Get(tree, d), Get(tree, Flip(d));
    var ll, lr := Get(tl, d), Get(tl, Flip(d));
    if tr != null && tr.color == Red {
      Open(tr, r, d);
      if tl.color == Red {
        if (ll != null && ll.color == Red) || (lr != null && lr.color == Red) {
          PaintNode(tl, Black, l);
          PaintNode(tr, Black, r);
          Link(tree, d, tl, tr, Red, Paint(l, Black), Paint(r, Black));
        }
      }
    } else if tl.color == Red {
      if ll != null && ll.color == Red {
        var a, b := tree, tl;
        RotateSingle(a, b, d, ll, lr, tr, Black, Red, x, y, r);
        root := b;
      } else if lr != null && lr.color == Red {
        Open(lr, y, d);
        var a, b, c := tree, tl, lr;
        var cl, cr := Get(c, d), Get(c, Flip(d));
        RotateDouble(a, b, c, d, ll, cl, cr, tr, Red, Black, Red, x, Sub(y, d), Sub(y, Flip(d)), r);
        root := c;
      }
    }
  }

  // ---- insertion ----

  lemma {:induction false} SortedDistinct(t: Tree)
    requires Sorted(Elems(t))
    ensures Distinct(t)
  {
    if t.T? {
      SortedSplit(Elems(t.left), t.node, Elems(t.right));
      SortedDistinct(t.left);
      SortedDistinct(t.right);
      ElemsAreNodes(t.left);
      ElemsAreNodes(t.right);
      forall x | x in Nodes(t.left) ensures x !in Nodes(t.right) {
        assert Less(x, t.node);
        assert x in Nodes(t.right) ==> Less(t.node, x);
      }
    }
  }

  /** No node occurs twice. */
  ghost predicate Once(s: seq<Node>) { forall i, j :: 0 <= i < j < |s| ==> s[i] != s[j] }

  lemma OnceSplit(a: seq<Node>, n: Node, b: seq<Node>)
    ensures
      Once(a + [n] + b) <==>
        Once(a) && Once(b) && n !in a && n !in b && forall i, j :: 0 <= i < |a| && 0 <= j < |b| ==> a[i] != b[j]
  {
    var s := a + [n] + b;
    assert s[|a|] == n && s[..|a|] == a && s[|a| + 1..] == b;
    if Once(s) {
      forall i, j | 0 <= i < j < |b| ensures b[i] != b[j] {
        assert s[|a| + 1 + i] == b[i] && s[|a| + 1 + j] == b[j];
      }
      forall i, j | 0 <= i < j < |a| ensures a[i] != a[j] { assert s[i] == a[i] && s[j] == a[j]; }
      forall i, j | 0 <= i < |a| && 0 <= j < |b| ensures a[i] != b[j] {
        assert s[i] == a[i] && s[|a| + 1 + j] == b[j];
      }
      forall i | 0 <= i < |a| ensures a[i] != n { assert s[i] == a[i]; }
      forall j | 0 <= j < |b| ensures b[j] != n { assert s[|a| + 1 + j] == b[j]; }
    }
  }

  lemma {:induction false} NodeAt(t: Tree, i: nat)
    requires i < |Elems(t)|
    ensures Elems(t)[i] in Nodes(t)
  {
    var k := |Elems(t.left)|;
    if i < k { NodeAt(t.left, i); }
    if i > k { NodeAt(t.right, i - k - 1); }
  }

  lemma {:induction false} IndexOf(t: Tree, x: Node) returns (i: nat)
    requires x in Nodes(t)
    ensures i < |Elems(t)| && Elems(t)[i] == x
  {
    i := |Elems(t.left)|;
    if x in Nodes(t.left) {
      i := IndexOf(t.left, x);
    } else if x in Nodes(t.right) {
      var j := IndexOf(t.right, x);
      i := i + 1 + j;
    }
  }

  lemma ApartSeqs(l: Tree, r: Tree)
    requires Nodes(l) !! Nodes(r)
    ensures forall i, j :: 0 <= i < |Elems(l)| && 0 <= j < |Elems(r)| ==> Elems(l)[i] != Elems(r)[j]
  {
    forall i, j | 0 <= i < |Elems(l)| && 0 <= j < |Elems(r)| ensures Elems(l)[i] != Elems(r)[j] {
      NodeAt(l, i);
      NodeAt(r, j);
    }
  }

  lemma ApartNodes(l: Tree, r: Tree)
    requires forall i, j :: 0 <= i < |Elems(l)| && 0 <= j < |Elems(r)| ==> Elems(l)[i] != Elems(r)[j]
    ensures Nodes(l) !! Nodes(r)
  {
    AllAllocated(l);
    var both := Nodes(l) * Nodes(r);
    if both != {} {
      var x :| x in both;
      var i := IndexOf(l, x);
      var j := IndexOf(r, x);
      assert false;
    }
  }

  lemma {:induction false} DistinctIsOnce(t: Tree)
    ensures Distinct(t) <==> Once(Elems(t))
  {
    if t.T? {
      hide Once;
      var l, n, r := t.left, t.node, t.right;
      DistinctIsOnce(l);
      DistinctIsOnce(r);
      ElemsAreNodes(l);
      ElemsAreNodes(r);
      OnceSplit(Elems(l), n, Elems(r));
      if Nodes(l) !! Nodes(r) { ApartSeqs(l, r); }
      if Once(Elems(t)) { ApartNodes(l, r); }
    }
  }

  /** Trees with the same in-order sequence have the same nodes, each as often. */
  lemma SameElems(t: Tree, t': Tree)
    requires Elems(t') == Elems(t)
    ensures Nodes(t') == Nodes(t) && (Distinct(t') <==> Distinct(t))
  {
    DistinctIsOnce(t);
    DistinctIsOnce(t');
    AllAllocated(t);
    AllAllocated(t');
    ElemsAreNodes(t);
    ElemsAreNodes(t');
    hide Elems, Nodes, Distinct;
    assert forall x: Node :: x in Nodes(t') <==> x in Nodes(t);
  }

  /** Insertion, wherever it puts the new node, adds exactly that node. */
  lemma {:induction false} AddApart(t: Tree, e: Node)
    requires Distinct(t) && e !in Nodes(t)
    ensures Distinct(RbTree.AddRecursive(t, e)) && Nodes(RbTree.AddRecursive(t, e)) == Nodes(t) + {e}
    decreases t, 1
  {
    hide FixInsertion, Precedes;
    if t.T? {
      AddBelow(t, e);
      var T(l, n, c, r) := t;
      if Precedes(e, n) {
        var t' := T(RbTree.AddRecursive(l, e), n, c, r);
        FixInsertionKeepsElems(t', Left);
        SameElems(t', FixInsertion(t', Left));
      } else {
        var t' := T(l, n, c, RbTree.AddRecursive(r, e));
        FixInsertionKeepsElems(t', Right);
        SameElems(t', FixInsertion(t', Right));
      }
    }
  }

  /** The tree between the recursive call and the fix-up. */
  lemma {:induction false} AddBelow(t: Tree, e: Node)
    requires t.T? && Distinct(t) && e !in Nodes(t)
    ensures
      var t' :=
        if Precedes(e, t.node) then T(RbTree.AddRecursive(t.left, e), t.node, t.color, t.right)
        else T(t.left, t.node, t.color, RbTree.AddRecursive(t.right, e));
      Distinct(t') && Nodes(t') == Nodes(t) + {e}
    decreases t, 0
  {
    hide Precedes, RbTree.AddRecursive;
    AddApart(t.left, e);
    AddApart(t.right, e);
  }

  method AddRecursive(tree: Node?, elem: Node, ghost t: Tree) returns (root: Node)
    requires Rep(tree, t) && Distinct(t) && elem !in Nodes(t)
    requires elem.left == null && elem.right == null
    modifies Nodes(t), elem
    ensures Rep(root, RbTree.AddRecursive(t, elem))
    decreases t
  {
    hide Elems, FixInsertion, Precedes;
    AllAllocated(t);
    if tree == null {
      elem.color := Red;
      root := elem;
    } else {
      AddBelow(t, elem);
      root := tree;
      if Precedes(elem, tree) {
        var child := AddRecursive(tree.left, elem, t.left);
        tree.left := child;
        if tree.color == Black {
          root := FixInsertionDiscrepancy(tree, Left, T(RbTree.AddRecursive(t.left, elem), tree, Black, t.right));
        }
      } else {
        var child := AddRecursive(tree.right, elem, t.right);
        tree.right := child;
        if tree.color == Black {
          root := FixInsertionDiscrepancy(tree, Right, T(t.left, tree, Black, RbTree.AddRecursive(t.right, elem)));
        }
      }
    }
  }

  /** What insertion into a valid tree comes to. */
  lemma AddWhole(t: Tree, e: Node)
    ensures
      ValidTree(t) && Fresh(t, e) ==>
        && (ValidTree(RbTree.Add(t, e)) <==> Comparable(t, e))
        && (Comparable(t, e) ==> Elems(RbTree.Add(t, e)) == Inserted(Elems(t), e))
  {
    if ValidTree(t) && Fresh(t, e) {
      AddValidIff(t, e);
      if Comparable(t, e) { AddCorrect(t, e); }
    }
  }

  /** `sglib_add`, on any tree of different nodes: the result represents what the insertion on values gives.
      Into a valid tree that is a valid tree with exactly `elem` more, as long as no comparison overflows. */
  method Add(tree: Node?, elem: Node, ghost t: Tree) returns (root: Node)
    requires Rep(tree, t) && Distinct(t) && elem !in Nodes(t)
    modifies Nodes(t), elem
    ensures Rep(root, RbTree.Add(t, elem)) && Nodes(RbTree.Add(t, elem)) == Nodes(t) + {elem}
    ensures Distinct(RbTree.Add(t, elem))
    ensures
      ValidTree(t) && Fresh(t, elem) ==>
        && (ValidTree(RbTree.Add(t, elem)) <==> Comparable(t, elem))
        && (Comparable(t, elem) ==> Elems(RbTree.Add(t, elem)) == Inserted(Elems(t), elem))
  {
    AllAllocated(t);
    AddApart(t, elem);
    AddWhole(t, elem);
    PaintedNodes(RbTree.AddRecursive(t, elem));
    hide *;
    elem.left, elem.right := null, null;
    root := AddRecursive(tree, elem, t);
    PaintNode(root, Black, RbTree.AddRecursive(t, elem));
  }

  lemma PaintedNodes(t: Tree)
    requires t.T? && Distinct(t)
    ensures Distinct(Paint(t, Black)) && Nodes(Paint(t, Black)) == Nodes(t)
  {
  }
}
