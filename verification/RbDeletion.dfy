/** Deletion from a red-black tree value: the fix-up, the rightmost-leaf replacement and
    the recursive descent of sglib, with the "depth decreased" flag. */
module RbDeletion {
  import opened RbTree

  function Bit(b: bool): nat { if b then 1 else 0 }

  /** SGLIB___RBTREE_FIX_DELETION_DISCREPANCY: `leftt` is side `d`, the side that kept its depth. */
  function FixDeletion(t: Tree, d: Dir): (Tree, bool)
    requires t.T?
  {
    var b, ar := Sub(t, d), Sub(t, Flip(d));
    if b.Nil? then (Paint(t, Black), false)
    else if b.color == Red then (FixRedSibling(t, d), false)
    else
      var bl, br := Sub(b, d), Sub(b, Flip(d));
      if !IsRed(bl) && !IsRed(br) then
        (Mk(d, Paint(b, Red), t.node, Black, ar), t.color == Black)
      else if IsRed(bl) && !IsRed(br) then
        (Mk(d, Paint(bl, Black), b.node, t.color, Mk(d, br, t.node, Black, ar)), false)
      else
        (Mk(d, Mk(d, bl, b.node, b.color, Sub(br, d)), br.node, t.color,
            Mk(d, Sub(br, Flip(d)), t.node, Black, ar)), false)
  }

  /** The cases of the fix-up in which the sibling is red. */
  function FixRedSibling(t: Tree, d: Dir): Tree
    requires t.T? && Sub(t, d).T?
  {
    var b, ar := Sub(t, d), Sub(t, Flip(d));
    var bl, c := Sub(b, d), Sub(b, Flip(d));
    if c.Nil? then Mk(d, bl, b.node, Black, Mk(d, Nil, t.node, t.color, ar))
    else
      var cl, cr := Sub(c, d), Sub(c, Flip(d));
      if !IsRed(cl) && !IsRed(cr) then
        Mk(d, bl, b.node, Black, Mk(d, Paint(c, Red), t.node, t.color, ar))
      else if IsRed(cr) then
        Mk(d, Mk(d, bl, b.node, b.color, Mk(d, cl, c.node, c.color, Sub(cr, d))), cr.node, Black,
           Mk(d, Sub(cr, Flip(d)), t.node, t.color, ar))
      else
        Mk(d, Mk(d, bl, b.node, b.color, Paint(cl, Black)), c.node, c.color,
           Mk(d, cr, t.node, t.color, ar))
  }

  /** Cuts out the rightmost node; the flag says whether the black height dropped. */
  function DeleteRightmostLeaf(t: Tree): (r: (Tree, Node, bool))
    requires t.T?
  {
    if t.right.Nil? then
      if t.left.T? then (Paint(t.left, Black), t.node, t.color == Black && t.left.color == Black)
      else (Nil, t.node, t.color == Black)
    else
      var (r', leaf, deep) := DeleteRightmostLeaf(t.right);
      var t' := T(t.left, t.node, t.color, r');
      if deep then
        var (f, res) := FixDeletion(t', Left);
        (f, leaf, res)
      else (t', leaf, false)
  }

  function DeleteRecursive(t: Tree, e: Node): (Tree, bool) {
    match t
    case Nil => (Nil, false)
    case T(l, n, c, r) =>
      if Precedes(e, n) then
        var (l', deep) := DeleteRecursive(l, e);
        var t' := T(l', n, c, r);
        if deep then FixDeletion(t', Right) else (t', false)
      else if Follows(e, n) then
        var (r', deep) := DeleteRecursive(r, e);
        var t' := T(l, n, c, r');
        if deep then FixDeletion(t', Left) else (t', false)
      else if l.Nil? then
        if r.Nil? then (Nil, c == Black)
        else (Paint(r, Black), c == Black && r.color == Black)
      else
        var (l', leaf, deep) := DeleteRightmostLeaf(l);
        var t' := T(l', leaf, c, r);
        if deep then FixDeletion(t', Right) else (t', false)
  }

  function Delete(t: Tree, e: Node): Tree {
    var r := DeleteRecursive(t, e).0;
    if r.T? then Paint(r, Black) else r
  }

  // ---- order of the nodes ----

  lemma FixDeletionKeepsElems(t: Tree, d: Dir)
    requires t.T?
    ensures Elems(FixDeletion(t, d).0) == Elems(t)
  {
    hide Elems;
    var b, ar := Sub(t, d), Sub(t, Flip(d));
    MkElems(d, b, t.node, t.color, ar);
    if b.Nil? {
      PaintElems(t, Black);
    } else if b.color == Red {
      FixRedSiblingKeepsElems(t, d);
    } else {
      var bl, br := Sub(b, d), Sub(b, Flip(d));
      MkElems(d, bl, b.node, b.color, br);
      if !IsRed(bl) && !IsRed(br) {
        PaintElems(b, Red);
        MkElems(d, Paint(b, Red), t.node, Black, ar);
      } else if IsRed(bl) && !IsRed(br) {
        PaintElems(bl, Black);
        MkElems(d, br, t.node, Black, ar);
        MkElems(d, Paint(bl, Black), b.node, t.color, Mk(d, br, t.node, Black, ar));
      } else {
        RotateTwiceElems(d, bl, b.node, br, t.node, ar, b.color, t.color, Black, b.color, t.color);
      }
    }
  }

  lemma FixRedSiblingKeepsElems(t: Tree, d: Dir)
    requires t.T? && Sub(t, d).T?
    ensures Elems(FixRedSibling(t, d)) == Elems(t)
  {
    hide Elems;
    var b, ar := Sub(t, d), Sub(t, Flip(d));
    var bl, c := Sub(b, d), Sub(b, Flip(d));
    MkElems(d, b, t.node, t.color, ar);
    MkElems(d, bl, b.node, b.color, c);
    if c.Nil? {
      MkElems(d, Nil, t.node, t.color, ar);
      MkElems(d, bl, b.node, Black, Mk(d, Nil, t.node, t.color, ar));
    } else {
      var cl, cr := Sub(c, d), Sub(c, Flip(d));
      if !IsRed(cl) && !IsRed(cr) {
        PaintElems(c, Red);
        MkElems(d, Paint(c, Red), t.node, t.color, ar);
        MkElems(d, bl, b.node, Black, Mk(d, Paint(c, Red), t.node, t.color, ar));
      } else if IsRed(cr) {
        RotateDeepElems(d, bl, b, c, cr, t, ar);
      } else {
        PaintElems(cl, Black);
        RotateTwiceElems(d, bl, b.node, c, t.node, ar, b.color, c.color, t.color, b.color, t.color);
        MkElems(d, bl, b.node, b.color, cl);
        MkElems(d, bl, b.node, b.color, Paint(cl, Black));
        MkElems(d, cr, t.node, t.color, ar);
        MkElems(d, Mk(d, bl, b.node, b.color, cl), c.node, c.color, Mk(d, cr, t.node, t.color, ar));
        MkElems(d, Mk(d, bl, b.node, b.color, Paint(cl, Black)), c.node, c.color, Mk(d, cr, t.node, t.color, ar));
      }
    }
  }

  /** The rotation that lifts the great-grandchild `w`. */
  lemma RotateDeepElems(d: Dir, bl: Tree, b: Tree, c: Tree, w: Tree, t: Tree, ar: Tree)
    requires t.T? && b.T? && c.T? && w.T?
    requires Sub(t, d) == b && Sub(t, Flip(d)) == ar && Sub(b, d) == bl && Sub(b, Flip(d)) == c && Sub(c, Flip(d)) == w
    ensures Elems(Mk(d, Mk(d, bl, b.node, b.color, Mk(d, Sub(c, d), c.node, c.color, Sub(w, d))), w.node, Black,
                     Mk(d, Sub(w, Flip(d)), t.node, t.color, ar))) == Elems(t)
  {
    hide Elems;
    var cl, wl, wr := Sub(c, d), Sub(w, d), Sub(w, Flip(d));
    MkElems(d, b, t.node, t.color, ar);
    MkElems(d, bl, b.node, b.color, c);
    MkElems(d, cl, c.node, c.color, w);
    MkElems(d, wl, w.node, w.color, wr);
    MkElems(d, cl, c.node, c.color, wl);
    MkElems(d, bl, b.node, b.color, Mk(d, cl, c.node, c.color, wl));
    MkElems(d, wr, t.node, t.color, ar);
    MkElems(d, Mk(d, bl, b.node, b.color, Mk(d, cl, c.node, c.color, wl)), w.node, Black,
            Mk(d, wr, t.node, t.color, ar));
    Reassociate(Elems(bl), b.node, Elems(cl), c.node, Elems(wl), w.node, Elems(wr), t.node, Elems(ar));
    Reassociate(Elems(ar), t.node, Elems(wr), w.node, Elems(wl), c.node, Elems(cl), b.node, Elems(bl));
  }

  lemma Reassociate<A>(a: seq<A>, b: A, c: seq<A>, d: A, x: seq<A>, y: A, z: seq<A>, t: A, w: seq<A>)
    ensures (a + [b] + (c + [d] + x)) + [y] + (z + [t] + w) == (a + [b] + (c + [d] + (x + [y] + z))) + [t] + w
    ensures (a + [b] + c) + [d] + ((x + [y] + z) + [t] + w) == a + [b] + (((c + [d] + x) + [y] + z) + [t] + w)
  {
  }

  lemma {:induction false} DeleteRightmostLeafElems(t: Tree)
    requires t.T?
    ensures Elems(t) == Elems(DeleteRightmostLeaf(t).0) + [DeleteRightmostLeaf(t).1]
  {
    if t.right.Nil? {
      if t.left.T? { PaintElems(t.left, Black); }
    } else {
      DeleteRightmostLeafElems(t.right);
      var (r', leaf, deep) := DeleteRightmostLeaf(t.right);
      var t' := T(t.left, t.node, t.color, r');
      FixDeletionKeepsElems(t', Left);
      assert Elems(t) == Elems(t.left) + [t.node] + (Elems(r') + [leaf]);
    }
  }

  /** `e` is a node of the tree and no other node has its address. */
  ghost predicate Member(t: Tree, e: Node) {
    e in Elems(t) && forall x :: x in Elems(t) && x.addr == e.addr ==> x == e
  }

  /** Deletion removes exactly `e` from the sorted sequence. */
  lemma {:induction false} DeleteRecursiveElems(t: Tree, e: Node)
    requires Sorted(Elems(t)) && Member(t, e) && Comparable(t, e)
    ensures Elems(DeleteRecursive(t, e).0) == Removed(Elems(t), e)
  {
    var T(l, n, c, r) := t;
    SortedSplit(Elems(l), n, Elems(r));
    RemovedSplit(Elems(l), n, Elems(r), e);
    assert n in Elems(t);
    assert forall x :: x in Elems(l) || x in Elems(r) ==> x in Elems(t);
    ComparatorRight(e, n);
    if Precedes(e, n) {
      DeleteRecursiveElems(l, e);
      var (l', deep) := DeleteRecursive(l, e);
      FixDeletionKeepsElems(T(l', n, c, r), Right);
    } else if Follows(e, n) {
      DeleteRecursiveElems(r, e);
      var (r', deep) := DeleteRecursive(r, e);
      FixDeletionKeepsElems(T(l, n, c, r'), Left);
    } else if l.Nil? {
      if r.T? { PaintElems(r, Black); }
      assert Elems(l) + Elems(r) == Elems(r);
    } else {
      DeleteRightmostLeafElems(l);
      var (l', leaf, deep) := DeleteRightmostLeaf(l);
      FixDeletionKeepsElems(T(l', leaf, c, r), Right);
    }
  }

  // ---- balance ----

  /** Side `d` of `t` is one black level deeper than the other side; otherwise `t` is fine. */
  predicate Deficient(t: Tree, d: Dir) {
    && t.T? && RedBlack(Sub(t, d)) && RedBlack(Sub(t, Flip(d)))
    && BlackHeight(Sub(t, d)) == BlackHeight(Sub(t, Flip(d))) + 1
    && (t.color == Red ==> !IsRed(Sub(t, d)) && !IsRed(Sub(t, Flip(d))))
  }

  /** What a deletion step promises about the subtree it hands back. */
  predicate Mended(r: Tree, res: bool, height: nat, wasBlack: bool) {
    && RedBlack(r) && BlackHeight(r) + Bit(res) == height
    && (wasBlack ==> !IsRed(r))
  }

  /** The fix-up mends a deficient tree; it never meets the cases sglib asserts away; and only
      the recolouring of a black parent whose sibling has no red child propagates. */
  lemma FixDeletionMends(t: Tree, d: Dir)
    requires Deficient(t, d)
    ensures Sub(t, d).T?
    ensures Sub(t, d).color == Red ==> Sub(Sub(t, d), Flip(d)).T? && Sub(Sub(t, d), Flip(d)).color == Black
    ensures Mended(FixDeletion(t, d).0, FixDeletion(t, d).1, BlackHeight(Sub(t, d)) + Bit(t.color == Black),
                   t.color == Black)
    ensures FixDeletion(t, d).1 <==>
      && t.color == Black && Sub(t, d).color == Black
      && !IsRed(Sub(Sub(t, d), d)) && !IsRed(Sub(Sub(t, d), Flip(d)))
  {
    hide Balanced, NoRedRed, BlackHeight;
    var b, ar := Sub(t, d), Sub(t, Flip(d));
    assert b.T? by { EmptyIsLow(b); }
    SubShape(b, d);
    if b.color == Red {
      FixRedSiblingMends(t, d);
    } else {
      var bl, br := Sub(b, d), Sub(b, Flip(d));
      if !IsRed(bl) && !IsRed(br) {
        MkShape(d, bl, b.node, Red, br);
        MkShape(d, Paint(b, Red), t.node, Black, ar);
      } else if IsRed(bl) && !IsRed(br) {
        SubShape(bl, d);
        MkShape(d, Sub(bl, d), bl.node, Black, Sub(bl, Flip(d)));
        MkShape(d, br, t.node, Black, ar);
        MkShape(d, Paint(bl, Black), b.node, t.color, Mk(d, br, t.node, Black, ar));
      } else {
        SubShape(br, d);
        MkShape(d, bl, b.node, Black, Sub(br, d));
        MkShape(d, Sub(br, Flip(d)), t.node, Black, ar);
        MkShape(d, Mk(d, bl, b.node, Black, Sub(br, d)), br.node, t.color, Mk(d, Sub(br, Flip(d)), t.node, Black, ar));
      }
    }
  }

  lemma EmptyIsLow(t: Tree)
    ensures t.Nil? ==> BlackHeight(t) == 0
  {
  }

  lemma FixRedSiblingMends(t: Tree, d: Dir)
    requires Deficient(t, d) && IsRed(Sub(t, d))
    ensures Sub(Sub(t, d), Flip(d)).T? && Sub(Sub(t, d), Flip(d)).color == Black
    ensures Mended(FixRedSibling(t, d), false, BlackHeight(Sub(t, d)) + 1, true)
  {
    hide Balanced, NoRedRed, BlackHeight;
    var b, ar := Sub(t, d), Sub(t, Flip(d));
    SubShape(b, d);
    var bl, c := Sub(b, d), Sub(b, Flip(d));
    EmptyIsLow(c);
    SubShape(c, d);
    var cl, cr := Sub(c, d), Sub(c, Flip(d));
    if !IsRed(cl) && !IsRed(cr) {
      MkShape(d, cl, c.node, Red, cr);
      MkShape(d, Paint(c, Red), t.node, Black, ar);
      MkShape(d, bl, b.node, Black, Mk(d, Paint(c, Red), t.node, Black, ar));
    } else if IsRed(cr) {
      SubShape(cr, d);
      MkShape(d, cl, c.node, Black, Sub(cr, d));
      MkShape(d, bl, b.node, Red, Mk(d, cl, c.node, Black, Sub(cr, d)));
      MkShape(d, Sub(cr, Flip(d)), t.node, Black, ar);
      MkShape(d, Mk(d, bl, b.node, Red, Mk(d, cl, c.node, Black, Sub(cr, d))), cr.node, Black,
              Mk(d, Sub(cr, Flip(d)), t.node, Black, ar));
    } else {
      SubShape(cl, d);
      MkShape(d, Sub(cl, d), cl.node, Black, Sub(cl, Flip(d)));
      MkShape(d, bl, b.node, Red, Paint(cl, Black));
      MkShape(d, cr, t.node, Black, ar);
      MkShape(d, Mk(d, bl, b.node, Red, Paint(cl, Black)), c.node, Black, Mk(d, cr, t.node, Black, ar));
    }
  }

  /** One level of the descent: the child away from side `d` was mended, the other child is `y`. */
  lemma MendLevel(x: Tree, deep: bool, xBlack: bool, n: Node, c: Color, y: Tree, d: Dir)
    requires Mended(x, deep, BlackHeight(y), xBlack) && RedBlack(y)
    requires c == Red ==> xBlack && !IsRed(y)
    ensures
      var t := Mk(d, y, n, c, x);
      var (r, res) := if deep then FixDeletion(t, d) else (t, false);
      Mended(r, res, BlackHeight(y) + Bit(c == Black), c == Black)
  {
    hide Balanced, NoRedRed, BlackHeight, FixDeletion;
    MkShape(d, y, n, c, x);
    if deep { FixDeletionMends(Mk(d, y, n, c, x), d); }
  }

  /** An only child is a red leaf under a black node; painted black it takes its parent's place. */
  lemma OnlyChild(t: Tree, d: Dir)
    requires t.T? && RedBlack(t) && Sub(t, Flip(d)).Nil?
    ensures Sub(t, d).T? ==>
      && t.color == Black && Sub(t, d).color == Red
      && Mended(Paint(Sub(t, d), Black), false, BlackHeight(t), true)
    ensures Sub(t, d).Nil? ==> BlackHeight(t) == Bit(t.color == Black)
  {
    hide Balanced, NoRedRed, BlackHeight;
    SubShape(t, d);
    var c := Sub(t, d);
    EmptyIsLow(c);
    EmptyIsLow(Sub(t, Flip(d)));
    if c.T? {
      SubShape(c, Left);
      MkShape(Left, c.left, c.node, Black, c.right);
    }
  }

  lemma {:induction false} DeleteRightmostLeafMends(t: Tree)
    requires t.T? && RedBlack(t)
    ensures Mended(DeleteRightmostLeaf(t).0, DeleteRightmostLeaf(t).2, BlackHeight(t), t.color == Black)
  {
    if t.right.Nil? {
      OnlyChild(t, Left);
    } else {
      DeleteRightmostLeafMends(t.right);
      var (r', leaf, deep) := DeleteRightmostLeaf(t.right);
      MendLevel(r', deep, !IsRed(t.right), t.node, t.color, t.left, Left);
    }
  }

  /** `res` is 1 exactly when the subtree lost one black level. */
  lemma {:induction false} DeleteRecursiveMends(t: Tree, e: Node)
    requires RedBlack(t)
    ensures Mended(DeleteRecursive(t, e).0, DeleteRecursive(t, e).1, BlackHeight(t), !IsRed(t))
  {
    hide Precedes, Follows, FixDeletion;
    match t
    case Nil =>
    case T(l, n, c, r) =>
      if Precedes(e, n) {
        DeleteRecursiveMends(l, e);
        var (l', deep) := DeleteRecursive(l, e);
        MendLevel(l', deep, !IsRed(l), n, c, r, Right);
      } else if Follows(e, n) {
        DeleteRecursiveMends(r, e);
        var (r', deep) := DeleteRecursive(r, e);
        MendLevel(r', deep, !IsRed(r), n, c, l, Left);
      } else if l.Nil? {
        OnlyChild(t, Right);
      } else {
        DeleteRightmostLeafMends(l);
        var (l', leaf, deep) := DeleteRightmostLeaf(l);
        MendLevel(l', deep, !IsRed(l), leaf, c, r, Right);
      }
  }

  /** Deleting a member of a valid tree gives a valid tree without exactly that node. */
  lemma DeleteCorrect(t: Tree, e: Node)
    requires ValidTree(t) && Member(t, e) && Comparable(t, e)
    ensures ValidTree(Delete(t, e)) && Elems(Delete(t, e)) == Removed(Elems(t), e)
    ensures multiset(Elems(Delete(t, e))) == multiset(Elems(t)) - multiset{e}
  {
    DeleteRecursiveMends(t, e);
    DeleteRecursiveElems(t, e);
    RemovedMeaning(Elems(t), e);
  }

  // ---- when a difference overflows ----

  /** A search that cannot end at its node takes no node out. */
  lemma {:induction false} NothingThere(t: Tree, e: Node)
    requires Fresh(t, e)
    ensures Elems(DeleteRecursive(t, e).0) == Elems(t) && !Finds(t, e)
  {
    match t
    case Nil =>
    case T(l, n, c, r) =>
      FreshBelow(t, e);
      OneWay(e, n);
      if Precedes(e, n) {
        NothingThere(l, e);
        FixDeletionKeepsElems(T(DeleteRecursive(l, e).0, n, c, r), Right);
      } else {
        NothingThere(r, e);
        FixDeletionKeepsElems(T(l, n, c, DeleteRecursive(r, e).0), Left);
      }
  }

  /** The search for `e` ends at a node. Where it runs off the tree the C does not return: it meets an
      assertion that fails, which is an endless loop. */
  predicate Finds(t: Tree, e: Node) {
    && t.T? && (Precedes(e, t.node) ==> Finds(t.left, e)) && (Follows(e, t.node) ==> Finds(t.right, e))
  }

  /** Without a wrong comparison the search ends at the node itself. */
  lemma {:induction false} FoundWhenRight(t: Tree, e: Node)
    requires Sorted(Elems(t)) && Member(t, e) && Comparable(t, e)
    ensures Finds(t, e)
  {
    hide Sorted, Elems, Precedes, Follows;
    MemberAside(t, e);
    if Precedes(e, t.node) { FoundWhenRight(t.left, e); }
    if Follows(e, t.node) { FoundWhenRight(t.right, e); }
  }

  lemma MemberAside(t: Tree, e: Node)
    requires Sorted(Elems(t)) && Member(t, e) && Comparable(t, e)
    ensures t.T? && Sorted(Elems(t.left)) && Sorted(Elems(t.right))
    ensures Precedes(e, t.node) ==> Member(t.left, e) && Comparable(t.left, e)
    ensures Follows(e, t.node) ==> Member(t.right, e) && Comparable(t.right, e)
    ensures !Precedes(e, t.node) && !Follows(e, t.node) ==> e == t.node
  {
    SortedSplit(Elems(t.left), t.node, Elems(t.right));
    ComparatorRight(e, t.node);
    assert t.node in Elems(t);
    assert forall x :: x in Elems(t.left) || x in Elems(t.right) ==> x in Elems(t);
  }

  /** After one wrong comparison the node is not found. */
  lemma {:induction false} Overlooked(t: Tree, e: Node)
    requires Sorted(Elems(t)) && Member(t, e) && !Comparable(t, e)
    ensures Elems(DeleteRecursive(t, e).0) == Elems(t) && !Finds(t, e)
  {
    var T(l, n, c, r) := t;
    SortedSplit(Elems(l), n, Elems(r));
    assert n in Elems(t);
    assert forall x :: x in Elems(l) || x in Elems(r) ==> x in Elems(t);
    ComparatorRight(e, n);
    if Precedes(e, n) {
      if Near(e, n) { Overlooked(l, e); } else { NothingThere(l, e); }
      FixDeletionKeepsElems(T(DeleteRecursive(l, e).0, n, c, r), Right);
    } else if Follows(e, n) {
      if Near(e, n) { Overlooked(r, e); } else { NothingThere(r, e); }
      FixDeletionKeepsElems(T(l, n, c, DeleteRecursive(r, e).0), Left);
    }
  }

  lemma StaysWhole(t: Tree, e: Node)
    requires Sorted(Elems(t)) && Member(t, e) && !Comparable(t, e)
    ensures Elems(Delete(t, e)) == Elems(t) && !Finds(t, e)
  {
    hide DeleteRecursive, Sorted, Comparable, Member, Finds;
    Overlooked(t, e);
  }

  /** Exactly then deletion finds the node, so that the call returns, and takes it out: when no comparison
      on the way down overflows. */
  lemma DeleteRemovesIff(t: Tree, e: Node)
    requires ValidTree(t) && Member(t, e)
    ensures Finds(t, e) <==> Comparable(t, e)
    ensures Elems(Delete(t, e)) == Removed(Elems(t), e) <==> Comparable(t, e)
  {
    hide Elems, Delete, Removed, Sorted, Comparable, Finds, RedBlack;
    if Comparable(t, e) {
      FoundWhenRight(t, e);
      DeleteCorrect(t, e);
    } else {
      StaysWhole(t, e);
      RemovedMeaning(Elems(t), e);
      assert |multiset(Removed(Elems(t), e))| < |multiset(Elems(t))|;
    }
  }

  /** A valid tree with keys further apart than an `int` can say: the greater one is looked for on the left. */
  lemma OverflowOverlooks(x: Node, e: Node)
    requires x.n == -1 && e.n == 0x7FFF_FFFF && x.addr != e.addr
    ensures
      var t := T(Nil, x, Black, T(Nil, e, Red, Nil));
      ValidTree(t) && Member(t, e) && !Finds(t, e) && Elems(Delete(t, e)) != Removed(Elems(t), e)
  {
    var r := T(Nil, e, Red, Nil);
    var t := T(Nil, x, Black, r);
    assert Elems(r) == [] + [e] + [] == [e];
    assert Elems(t) == [] + [x] + Elems(r) == [x, e];
    assert Less(x, e) && Sorted([x, e]);
    assert Balanced(Nil) && NoRedRed(Nil);
    assert Balanced(r) && NoRedRed(r) && BlackHeight(r) == BlackHeight(Nil);
    assert Balanced(t) && NoRedRed(t) && Member(t, e);
    DeleteRemovesIff(t, e);
  }
}
