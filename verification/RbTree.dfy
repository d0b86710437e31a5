/** The value of an sglib red-black tree and what insertion and deletion do to it.
    A tree value holds the nodes themselves; `RbHeap` ties it to their link fields. */
module RbTree {

  datatype Color = Red | Black
  datatype Dir = Left | Right

  type int32 = x: int | -0x8000_0000 <= x < 0x8000_0000

  /** A node of the intrusive tree. `addr` stands for its address, which breaks ties. */
  class Node {
    const n: int32
    const addr: nat
    var color: Color
    var left: Node?
    var right: Node?

    constructor (n: int32, addr: nat)
      ensures this.n == n && this.addr == addr
    {
      this.n, this.addr := n, addr;
      left, right, color := null, null, Red;
    }
  }

  /** The comparator: the difference of two keys in a 32-bit `int`. */
  function Cmp(x: Node, y: Node): int32 { (x.n - y.n + 0x8000_0000) % 0x1_0000_0000 - 0x8000_0000 }

  /** The two tests of the search: `e` goes to the left of node `n`, or to its right. */
  predicate Precedes(e: Node, n: Node) { Cmp(e, n) < 0 || (Cmp(e, n) == 0 && e.addr < n.addr) }

  predicate Follows(e: Node, n: Node) { Cmp(e, n) > 0 || (Cmp(e, n) == 0 && e.addr > n.addr) }

  /** The order of the tree: by key, then by address. */
  predicate Less(x: Node, y: Node) { x.n < y.n || (x.n == y.n && x.addr < y.addr) }

  /** The difference of the keys fits an `int`. */
  predicate Near(e: Node, n: Node) { -0x8000_0000 <= e.n - n.n < 0x8000_0000 }

  /** The comparator is right about two nodes exactly when the difference of their keys does not overflow. */
  lemma ComparatorRight(e: Node, n: Node)
    ensures Near(e, n) <==> (Precedes(e, n) <==> Less(e, n))
    ensures Near(e, n) <==> (Follows(e, n) <==> Less(n, e))
  {
    var d := e.n - n.n;
    assert Cmp(e, n) == if d < -0x8000_0000 then d + 0x1_0000_0000 else if Near(e, n) then d else d - 0x1_0000_0000;
  }

  datatype Tree = Nil | T(left: Tree, node: Node, color: Color, right: Tree)

  function Flip(d: Dir): Dir { if d == Left then Right else Left }

  /** The child on side `d`. */
  function Sub(t: Tree, d: Dir): Tree
    requires t.T?
  {
    if d == Left then t.left else t.right
  }

  /** A node whose child on side `d` is `x` and whose other child is `y`. */
  function Mk(d: Dir, x: Tree, n: Node, c: Color, y: Tree): Tree {
    if d == Left then T(x, n, c, y) else T(y, n, c, x)
  }

  predicate IsRed(t: Tree) { t.T? && t.color == Red }

  function Paint(t: Tree, c: Color): Tree
    requires t.T?
  {
    T(t.left, t.node, c, t.right)
  }

  // ---- measures and invariants ----

  ghost function Nodes(t: Tree): set<Node> {
    match t
    case Nil => {}
    case T(l, n, _, r) => Nodes(l) + {n} + Nodes(r)
  }

  /** The nodes from left to right. */
  ghost function Elems(t: Tree): seq<Node> {
    match t
    case Nil => []
    case T(l, n, _, r) => Elems(l) + [n] + Elems(r)
  }

  /** Black nodes on the leftmost path. */
  function BlackHeight(t: Tree): nat {
    match t
    case Nil => 0
    case T(l, _, c, _) => BlackHeight(l) + (if c == Black then 1 else 0)
  }

  /** Every path has the same number of black nodes. */
  predicate Balanced(t: Tree) {
    t.T? ==> BlackHeight(t.left) == BlackHeight(t.right) && Balanced(t.left) && Balanced(t.right)
  }

  /** No red node has a red child. */
  predicate NoRedRed(t: Tree) {
    t.T? ==>
      && (t.color == Red ==> !IsRed(t.left) && !IsRed(t.right))
      && NoRedRed(t.left) && NoRedRed(t.right)
  }

  predicate RedBlack(t: Tree) { Balanced(t) && NoRedRed(t) }

  ghost predicate Sorted(s: seq<Node>) {
    forall i, j :: 0 <= i < j < |s| ==> Less(s[i], s[j])
  }

  /** A valid tree, as `consistency_check` wants it: sorted, balanced, black root. */
  ghost predicate ValidTree(t: Tree) {
    Sorted(Elems(t)) && RedBlack(t) && !IsRed(t)
  }

  // ---- insertion ----

  /** SGLIB___RBTREE_FIX_INSERTION_DISCREPANCY with `leftt` on side `d`. */
  function FixInsertion(t: Tree, d: Dir): Tree
    requires t.T? && Sub(t, d).T?
  {
    var tl := Sub(t, d);
    var tr := Sub(t, Flip(d));
    var ll, lr := Sub(tl, d), Sub(tl, Flip(d));
    if IsRed(tr) then
      if tl.color == Red && (IsRed(ll) || IsRed(lr)) then
        Mk(d, Paint(tl, Black), t.node, Red, Paint(tr, Black))
      else t
    else if tl.color == Red then
      if IsRed(ll) then
        Mk(d, ll, tl.node, Black, Mk(d, lr, t.node, Red, tr))
      else if IsRed(lr) then
        Mk(d, Mk(d, ll, tl.node, Red, Sub(lr, d)), lr.node, Black,
           Mk(d, Sub(lr, Flip(d)), t.node, Red, tr))
      else t
    else t
  }

  function AddRecursive(t: Tree, e: Node): (r: Tree)
    ensures r.T?
  {
    match t
    case Nil => T(Nil, e, Red, Nil)
    case T(l, n, c, r) =>
      if Precedes(e, n) then
        var t' := T(AddRecursive(l, e), n, c, r);
        if c == Black then FixInsertion(t', Left) else t'
      else
        var t' := T(l, n, c, AddRecursive(r, e));
        if c == Black then FixInsertion(t', Right) else t'
  }

  function Add(t: Tree, e: Node): Tree { Paint(AddRecursive(t, e), Black) }

  /** The only flaw `add_recursive` may leave: a red root with one red child. */
  predicate OneConflict(t: Tree) {
    t.T? && NoRedRed(t.left) && NoRedRed(t.right) && !(IsRed(t) && IsRed(t.left) && IsRed(t.right))
  }

  lemma FixInsertionKeepsElems(t: Tree, d: Dir)
    requires t.T? && Sub(t, d).T?
    ensures Elems(FixInsertion(t, d)) == Elems(t)
  {
    hide Elems;
    var tl, tr := Sub(t, d), Sub(t, Flip(d));
    var ll, lr := Sub(tl, d), Sub(tl, Flip(d));
    MkElems(d, tl, t.node, t.color, tr);
    MkElems(d, ll, tl.node, tl.color, lr);
    if IsRed(tr) {
      PaintElems(tl, Black);
      PaintElems(tr, Black);
      MkElems(d, Paint(tl, Black), t.node, Red, Paint(tr, Black));
    } else if IsRed(ll) {
      MkElems(d, lr, t.node, Red, tr);
      MkElems(d, ll, tl.node, Black, Mk(d, lr, t.node, Red, tr));
    } else if IsRed(lr) {
      RotateTwiceElems(d, ll, tl.node, lr, t.node, tr, Red, Black, Red, Red, t.color);
    }
  }

  lemma MkElems(d: Dir, x: Tree, n: Node, c: Color, y: Tree)
    ensures Elems(Mk(d, x, n, c, y)) == if d == Left then Elems(x) + [n] + Elems(y) else Elems(y) + [n] + Elems(x)
  {
  }

  lemma PaintElems(t: Tree, c: Color)
    requires t.T?
    ensures Elems(Paint(t, c)) == Elems(t)
  {
  }

  /** The double rotation: the inner grandchild `w` moves to the top, whatever the colours. */
  lemma RotateTwiceElems(d: Dir, x: Tree, b: Node, w: Tree, a: Node, y: Tree,
                         cb: Color, cw: Color, ca: Color, c0: Color, c1: Color)
    requires w.T?
    ensures Elems(Mk(d, Mk(d, x, b, cb, Sub(w, d)), w.node, cw, Mk(d, Sub(w, Flip(d)), a, ca, y)))
         == Elems(Mk(d, Mk(d, x, b, c0, w), a, c1, y))
  {
    hide Elems;
    var p, q := Sub(w, d), Sub(w, Flip(d));
    MkElems(d, p, w.node, w.color, q);
    MkElems(d, x, b, c0, w);
    MkElems(d, Mk(d, x, b, c0, w), a, c1, y);
    MkElems(d, x, b, cb, p);
    MkElems(d, q, a, ca, y);
    MkElems(d, Mk(d, x, b, cb, p), w.node, cw, Mk(d, q, a, ca, y));
  }

  /** The invariants of a node, read from either side. */
  lemma MkShape(d: Dir, x: Tree, n: Node, c: Color, y: Tree)
    ensures Balanced(Mk(d, x, n, c, y)) <==> Balanced(x) && Balanced(y) && BlackHeight(x) == BlackHeight(y)
    ensures Balanced(Mk(d, x, n, c, y)) ==>
      BlackHeight(Mk(d, x, n, c, y)) == BlackHeight(x) + (if c == Black then 1 else 0)
    ensures NoRedRed(Mk(d, x, n, c, y)) <==>
      NoRedRed(x) && NoRedRed(y) && (c == Red ==> !IsRed(x) && !IsRed(y))
  {
  }

  lemma SubShape(t: Tree, d: Dir)
    requires t.T?
    ensures t == Mk(d, Sub(t, d), t.node, t.color, Sub(t, Flip(d)))
    ensures Balanced(t) <==>
      && Balanced(Sub(t, d)) && Balanced(Sub(t, Flip(d)))
      && BlackHeight(Sub(t, d)) == BlackHeight(Sub(t, Flip(d)))
    ensures Balanced(t) ==> BlackHeight(t) == BlackHeight(Sub(t, d)) + (if t.color == Black then 1 else 0)
    ensures NoRedRed(t) <==>
      && NoRedRed(Sub(t, d)) && NoRedRed(Sub(t, Flip(d)))
      && (t.color == Red ==> !IsRed(Sub(t, d)) && !IsRed(Sub(t, Flip(d))))
  {
  }

  /** A black parent absorbs the conflict of the child on side `d`. */
  lemma FixInsertionRepairs(t: Tree, d: Dir)
    requires t.T? && t.color == Black && Balanced(t)
    requires OneConflict(Sub(t, d)) && NoRedRed(Sub(t, Flip(d)))
    ensures RedBlack(FixInsertion(t, d)) && BlackHeight(FixInsertion(t, d)) == BlackHeight(t)
  {
    hide Balanced, NoRedRed, BlackHeight;
    var tl, tr := Sub(t, d), Sub(t, Flip(d));
    SubShape(t, d);
    SubShape(tl, d);
    var ll, lr := Sub(tl, d), Sub(tl, Flip(d));
    if IsRed(tr) {
      SubShape(tr, d);
      MkShape(d, ll, tl.node, Black, lr);
      MkShape(d, Sub(tr, d), tr.node, Black, Sub(tr, Flip(d)));
      MkShape(d, Paint(tl, Black), t.node, Red, Paint(tr, Black));
    } else if IsRed(ll) {
      MkShape(d, lr, t.node, Red, tr);
      MkShape(d, ll, tl.node, Black, Mk(d, lr, t.node, Red, tr));
    } else if IsRed(lr) {
      SubShape(lr, d);
      MkShape(d, ll, tl.node, Red, Sub(lr, d));
      MkShape(d, Sub(lr, Flip(d)), t.node, Red, tr);
      MkShape(d, Mk(d, ll, tl.node, Red, Sub(lr, d)), lr.node, Black, Mk(d, Sub(lr, Flip(d)), t.node, Red, tr));
    }
  }

  lemma {:induction false} AddRecursiveInvariant(t: Tree, e: Node)
    requires RedBlack(t)
    ensures
      var r := AddRecursive(t, e);
      && Balanced(r) && BlackHeight(r) == BlackHeight(t) && OneConflict(r)
      && (t.T? && t.color == Black ==> NoRedRed(r))
      && (t.T? && t.color == Red ==> r.color == Red)
  {
    match t
    case Nil =>
    case T(l, n, c, r) =>
      if Precedes(e, n) {
        AddRecursiveInvariant(l, e);
        if c == Black { FixInsertionRepairs(T(AddRecursive(l, e), n, c, r), Left); }
      } else {
        AddRecursiveInvariant(r, e);
        if c == Black { FixInsertionRepairs(T(l, n, c, AddRecursive(r, e)), Right); }
      }
  }

  // ---- sorted sequences of nodes ----

  /** Reference insertion into a sorted sequence. */
  ghost function Inserted(s: seq<Node>, e: Node): seq<Node> {
    if s == [] then [e]
    else if Less(e, s[0]) then [e] + s
    else [s[0]] + Inserted(s[1..], e)
  }

  /** Reference removal of the first occurrence. */
  ghost function Removed(s: seq<Node>, e: Node): seq<Node> {
    if s == [] then []
    else if s[0] == e then s[1..]
    else [s[0]] + Removed(s[1..], e)
  }

  ghost predicate AllLess(s: seq<Node>, n: Node) { forall x :: x in s ==> Less(x, n) }
  ghost predicate AllGreater(s: seq<Node>, n: Node) { forall x :: x in s ==> Less(n, x) }

  lemma SortedSplit(a: seq<Node>, n: Node, b: seq<Node>)
    ensures Sorted(a + [n] + b) <==> Sorted(a) && Sorted(b) && AllLess(a, n) && AllGreater(b, n)
  {
    var s := a + [n] + b;
    if Sorted(s) {
      forall i, j | 0 <= i < j < |a| ensures Less(a[i], a[j]) { assert s[i] == a[i] && s[j] == a[j]; }
      forall i, j | 0 <= i < j < |b| ensures Less(b[i], b[j]) {
        assert s[|a| + 1 + i] == b[i] && s[|a| + 1 + j] == b[j];
      }
      assert s[|a|] == n;
      forall x | x in a ensures Less(x, n) { var i :| 0 <= i < |a| && a[i] == x; assert s[i] == x; }
      forall x | x in b ensures Less(n, x) { var i :| 0 <= i < |b| && b[i] == x; assert s[|a| + 1 + i] == x; }
    }
    if Sorted(a) && Sorted(b) && AllLess(a, n) && AllGreater(b, n) {
      forall i, j | 0 <= i < j < |s| ensures Less(s[i], s[j]) {
        assert i < |a| ==> s[i] in a;
        assert j > |a| ==> s[j] in b;
      }
    }
  }

  lemma {:induction false} InsertedSplit(a: seq<Node>, n: Node, b: seq<Node>, e: Node)
    requires Sorted(a + [n] + b)
    ensures Less(e, n) ==> Inserted(a + [n] + b, e) == Inserted(a, e) + [n] + b
    ensures Less(n, e) ==> Inserted(a + [n] + b, e) == a + [n] + Inserted(b, e)
  {
    var s := a + [n] + b;
    if a == [] {
      assert s == [n] + b && s[1..] == b;
      assert [e] + s == [e] + [n] + b;
    } else {
      assert s[1..] == a[1..] + [n] + b;
      SortedSplit(a, n, b);
      assert a[0] in a && Less(a[0], n);
      InsertedSplit(a[1..], n, b, e);
      assert [a[0]] + (Inserted(a[1..], e) + [n] + b) == ([a[0]] + Inserted(a[1..], e)) + [n] + b;
      assert [e] + s == ([e] + a) + [n] + b;
      assert [a[0]] + (a[1..] + [n] + Inserted(b, e)) == a + [n] + Inserted(b, e);
    }
  }

  lemma {:induction false} RemovedSplit(a: seq<Node>, n: Node, b: seq<Node>, e: Node)
    requires Sorted(a + [n] + b)
    ensures e in a ==> Removed(a + [n] + b, e) == Removed(a, e) + [n] + b
    ensures e == n ==> Removed(a + [n] + b, e) == a + b
    ensures e in b ==> Removed(a + [n] + b, e) == a + [n] + Removed(b, e)
  {
    var s := a + [n] + b;
    SortedSplit(a, n, b);
    if a == [] {
      assert s == [n] + b && s[1..] == b;
      assert a + [n] + Removed(b, e) == [n] + Removed(b, e);
    } else {
      hide Sorted;
      assert s[0] == a[0] && s[1..] == a[1..] + [n] + b;
      assert a[0] in a && Less(a[0], n);
      assert Sorted(s[1..]) by { SortedTail(s); }
      RemovedSplit(a[1..], n, b, e);
      if e == a[0] {
      } else if e in a {
        assert e in a[1..];
        assert [a[0]] + (Removed(a[1..], e) + [n] + b) == ([a[0]] + Removed(a[1..], e)) + [n] + b;
      } else if e == n {
        assert [a[0]] + (a[1..] + b) == a + b;
      } else if e in b {
        assert [a[0]] + (a[1..] + [n] + Removed(b, e)) == a + [n] + Removed(b, e);
      }
    }
  }

  lemma SortedTail(s: seq<Node>)
    requires s != [] && Sorted(s)
    ensures Sorted(s[1..])
  {
  }

  lemma SortedCons(x: Node, s: seq<Node>)
    ensures Sorted([x] + s) <==> Sorted(s) && AllGreater(s, x)
  {
    SortedSplit([], x, s);
    assert [] + [x] + s == [x] + s;
  }

  /** What the two reference operations mean: one element more, one element less, order kept. */
  lemma {:induction false} InsertedMeaning(s: seq<Node>, e: Node)
    requires Sorted(s) && (forall x :: x in s ==> x.addr != e.addr)
    ensures Sorted(Inserted(s, e)) && multiset(Inserted(s, e)) == multiset(s) + multiset{e}
  {
    if s != [] {
      assert s == [s[0]] + s[1..];
      SortedCons(s[0], s[1..]);
      InsertedMeaning(s[1..], e);
      hide Sorted;
      if Less(e, s[0]) {
        forall x | x in s ensures Less(e, x) { assert x == s[0] || x in s[1..]; }
        SortedCons(e, s);
      } else {
        var r := Inserted(s[1..], e);
        assert Less(s[0], e);
        forall x | x in r ensures Less(s[0], x) { assert x in multiset(r); assert x == e || x in s[1..]; }
        SortedCons(s[0], r);
      }
    }
  }

  lemma {:induction false} RemovedMeaning(s: seq<Node>, e: Node)
    requires Sorted(s) && e in s
    ensures Sorted(Removed(s, e)) && multiset(Removed(s, e)) == multiset(s) - multiset{e}
  {
    assert s == [s[0]] + s[1..];
    if s[0] != e {
      RemovedMeaning(s[1..], e);
      SortedCons(s[0], s[1..]);
      hide Sorted;
      var r := Removed(s[1..], e);
      forall x | x in r ensures Less(s[0], x) { assert x in multiset(r); assert x in s[1..]; }
      SortedCons(s[0], r);
    }
  }

  lemma {:induction false} ElemsAreNodes(t: Tree)
    ensures forall x :: x in Elems(t) <==> x in Nodes(t)
  {
    if t.T? {
      ElemsAreNodes(t.left);
      ElemsAreNodes(t.right);
    }
  }

  // ---- insertion, main result ----

  /** The search for `e` meets only nodes whose keys differ from its own by what an `int` can hold. */
  predicate Comparable(t: Tree, e: Node) {
    t.T? ==>
      && Near(e, t.node) && (Precedes(e, t.node) ==> Comparable(t.left, e))
      && (Follows(e, t.node) ==> Comparable(t.right, e))
  }

  /** No element of the tree shares `e`'s address. */
  ghost predicate Fresh(t: Tree, e: Node) { forall x :: x in Elems(t) ==> x.addr != e.addr }

  lemma FreshBelow(t: Tree, e: Node)
    requires t.T? && Fresh(t, e)
    ensures t.node.addr != e.addr && Fresh(t.left, e) && Fresh(t.right, e)
  {
    assert t.node in Elems(t);
    assert forall x :: x in Elems(t.left) || x in Elems(t.right) ==> x in Elems(t);
  }

  lemma {:induction false} AddRecursiveElems(t: Tree, e: Node)
    requires Sorted(Elems(t)) && Fresh(t, e) && Comparable(t, e)
    ensures Elems(AddRecursive(t, e)) == Inserted(Elems(t), e)
  {
    match t
    case Nil =>
    case T(l, n, c, r) =>
      SortedSplit(Elems(l), n, Elems(r));
      InsertedSplit(Elems(l), n, Elems(r), e);
      FreshBelow(t, e);
      ComparatorRight(e, n);
      if Precedes(e, n) {
        AddRecursiveElems(l, e);
        FixInsertionKeepsElems(T(AddRecursive(l, e), n, c, r), Left);
      } else {
        AddRecursiveElems(r, e);
        FixInsertionKeepsElems(T(l, n, c, AddRecursive(r, e)), Right);
      }
  }

  /** Adding a fresh node to a valid tree gives a valid tree with exactly that node more. */
  lemma AddCorrect(t: Tree, e: Node)
    requires ValidTree(t) && Fresh(t, e) && Comparable(t, e)
    ensures ValidTree(Add(t, e)) && Elems(Add(t, e)) == Inserted(Elems(t), e)
    ensures multiset(Elems(Add(t, e))) == multiset(Elems(t)) + multiset{e}
  {
    AddRecursiveInvariant(t, e);
    AddRecursiveElems(t, e);
    InsertedMeaning(Elems(t), e);
  }

  // ---- when a difference overflows ----

  /** The nodes in order, around the new one. */
  lemma AddRecursiveParts(t: Tree, e: Node)
    requires t.T?
    ensures
      Elems(AddRecursive(t, e)) ==
        if Precedes(e, t.node) then Elems(AddRecursive(t.left, e)) + [t.node] + Elems(t.right)
        else Elems(t.left) + [t.node] + Elems(AddRecursive(t.right, e))
  {
    var T(l, n, c, r) := t;
    if Precedes(e, n) {
      FixInsertionKeepsElems(T(AddRecursive(l, e), n, c, r), Left);
    } else {
      FixInsertionKeepsElems(T(l, n, c, AddRecursive(r, e)), Right);
    }
  }

  /** A node once compared wrongly ends up on the wrong side. */
  lemma {:induction false} Misplaced(t: Tree, e: Node)
    requires Fresh(t, e)
    ensures e in Elems(AddRecursive(t, e))
    ensures !Comparable(t, e) ==> !Sorted(Elems(AddRecursive(t, e)))
  {
    hide Sorted, Elems, Fresh, Precedes, Follows, Less, Near, AddRecursive;
    if t.T? {
      var T(l, n, c, r) := t;
      FreshBelow(t, e);
      AddRecursiveParts(t, e);
      ComparatorRight(e, n);
      OneWay(e, n);
      if Precedes(e, n) {
        Misplaced(l, e);
        SortedSplit(Elems(AddRecursive(l, e)), n, Elems(r));
      } else {
        Misplaced(r, e);
        SortedSplit(Elems(l), n, Elems(AddRecursive(r, e)));
      }
    } else {
      AddToNil(e);
    }
  }

  lemma OneWay(e: Node, n: Node)
    requires e.addr != n.addr
    ensures Precedes(e, n) != Follows(e, n) && Less(e, n) != Less(n, e)
  {
  }

  lemma AddToNil(e: Node)
    ensures Elems(AddRecursive(Nil, e)) == [e]
  {
  }

  /** Exactly then adding keeps the tree valid: when no comparison on the way down overflows. */
  lemma AddValidIff(t: Tree, e: Node)
    requires ValidTree(t) && Fresh(t, e)
    ensures ValidTree(Add(t, e)) <==> Comparable(t, e)
  {
    if Comparable(t, e) {
      AddCorrect(t, e);
    } else {
      Misplaced(t, e);
      assert Elems(Add(t, e)) == Elems(AddRecursive(t, e));
    }
  }

  /** Keys further apart than an `int` can say: the greater one is put to the left. */
  lemma OverflowMisplaces(x: Node, e: Node)
    requires x.n == -1 && e.n == 0x7FFF_FFFF && x.addr != e.addr
    ensures ValidTree(T(Nil, x, Black, Nil)) && !ValidTree(Add(T(Nil, x, Black, Nil), e))
  {
    AddValidIff(T(Nil, x, Black, Nil), e);
  }
}
