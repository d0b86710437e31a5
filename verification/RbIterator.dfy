/** The explicit-stack tree iterator of sglib, and why its 128-entry path is enough. */
module RbIterator {
  import opened RbTree
  import opened RbHeap
  import opened Arith
  import MergeSpec

  const MAX_TREE_DEEP := 128

  /** The traversal selected by `order`: 0 pre-order, 1 in-order, 2 post-order. */
  ghost function Walk(t: Tree, order: int): seq<Node> {
    match t
    case Nil => []
    case T(l, n, _, r) =>
      Here(n, order == 0) + (Walk(l, order) + Here(n, order == 1) + Walk(r, order) + Here(n, order == 2))
  }

  ghost function Here(n: Node, b: bool): seq<Node> { if b then [n] else [] }

  /** One entry of the path: the subtree and how often it has been passed. */
  datatype Frame = Frame(t: Tree, pass: int)

  /** What the top frame still has to yield, and what a frame below the top does. */
  ghost function TopRest(f: Frame, order: int): seq<Node>
    requires f.t.T?
  {
    var T(l, n, _, r) := f.t;
    if f.pass == 0 then Walk(l, order) + Here(n, order == 1) + Walk(r, order) + Here(n, order == 2)
    else if f.pass == 1 then Walk(r, order) + Here(n, order == 2)
    else []
  }

  ghost function BelowRest(f: Frame, order: int): seq<Node>
    requires f.t.T?
  {
    Here(f.t.node, order == f.pass) + TopRest(f, order)
  }

  ghost predicate GoodFrames(fs: seq<Frame>) {
    && (forall i :: 0 <= i < |fs| ==> fs[i].t.T? && 0 <= fs[i].pass <= 2)
    && (forall i :: 0 <= i < |fs| - 1 ==> fs[i].pass >= 1)
  }

  ghost function Below(fs: seq<Frame>, order: int): seq<Node>
    requires GoodFrames(fs)
  {
    if fs == [] then [] else BelowRest(fs[|fs| - 1], order) + Below(fs[..|fs| - 1], order)
  }

  /** Everything the iterator will still yield. */
  ghost function Rest(fs: seq<Frame>, order: int): seq<Node>
    requires GoodFrames(fs)
  {
    if fs == [] then [] else TopRest(fs[|fs| - 1], order) + Below(fs[..|fs| - 1], order)
  }

  /** One turn of the loop in `it_compute_current_elem`. */
  ghost function Step(fs: seq<Frame>): (r: seq<Frame>)
    requires GoodFrames(fs) && fs != []
    ensures GoodFrames(r)
  {
    var k := |fs| - 1;
    var Frame(t, pass) := fs[k];
    if pass >= 2 then fs[..k]
    else
      var s := if pass == 0 then t.left else t.right;
      fs[..k] + [Frame(t, pass + 1)] + (if s.T? then [Frame(s, 0)] else [])
  }

  /** The element the loop picks when the top frame's pass count equals `order`. */
  ghost function Picked(fs: seq<Frame>, order: int): seq<Node>
    requires GoodFrames(fs)
  {
    if fs != [] && fs[|fs| - 1].pass == order then [fs[|fs| - 1].t.node] else []
  }

  /** Passing a subtree once more splits what it still has to yield. */
  lemma FrameSplits(t: Tree, pass: int, order: int)
    requires t.T? && 0 <= pass < 2
    ensures
      var s := if pass == 0 then t.left else t.right;
      var above := if s.T? then Here(s.node, order == 0) + TopRest(Frame(s, 0), order) else [];
      TopRest(Frame(t, pass), order) == above + BelowRest(Frame(t, pass + 1), order)
  {
    var s := if pass == 0 then t.left else t.right;
    WalkSplits(s, order);
    hide Walk;
    var n := t.node;
    Reassociate(Walk(t.left, order), Here(n, order == 1), Walk(t.right, order), Here(n, order == 2));
    assert Here(n, order == 2) + [] == Here(n, order == 2);
    assert TopRest(Frame(t, 2), order) == [];
  }

  lemma WalkSplits(s: Tree, order: int)
    ensures Walk(s, order) == if s.T? then Here(s.node, order == 0) + TopRest(Frame(s, 0), order) else []
  {
  }

  lemma Reassociate(a: seq<Node>, b: seq<Node>, c: seq<Node>, d: seq<Node>)
    ensures a + b + c + d == a + (b + (c + d))
  {
  }

  lemma RestTop(fs: seq<Frame>, order: int)
    requires GoodFrames(fs) && fs != []
    ensures
      var k := |fs| - 1;
      GoodFrames(fs[..k]) && Rest(fs, order) == TopRest(fs[k], order) + Below(fs[..k], order)
  {
    hide TopRest, Below;
  }

  lemma RestBelow(fs: seq<Frame>, order: int)
    requires GoodFrames(fs) && fs != [] && fs[|fs| - 1].pass >= 1
    ensures
      var k := |fs| - 1;
      GoodFrames(fs[..k]) && Below(fs, order) == BelowRest(fs[k], order) + Below(fs[..k], order)
  {
    hide BelowRest;
  }

  lemma RestAll(fs: seq<Frame>, order: int)
    requires GoodFrames(fs) && (fs == [] || fs[|fs| - 1].pass >= 1)
    ensures Rest(fs, order) == (if fs == [] then [] else TopRest(fs[|fs| - 1], order) + Below(fs[..|fs| - 1], order))
    ensures Picked(fs, order) + Rest(fs, order) == Below(fs, order)
  {
    hide TopRest;
    if fs != [] {
      var k := |fs| - 1;
      var h, t, b := Picked(fs, order), TopRest(fs[k], order), Below(fs[..k], order);
      assert h + (t + b) == (h + t) + b;
    }
  }

  /** A turn of the loop yields exactly the next node, or none and loses none. */
  lemma StepYields(fs: seq<Frame>, order: int)
    requires GoodFrames(fs) && fs != []
    ensures Rest(fs, order) == Picked(Step(fs), order) + Rest(Step(fs), order)
  {
    hide TopRest, Walk, BelowRest, Below, Rest, Here;
    var k := |fs| - 1;
    var b := Below(fs[..k], order);
    if fs[k].pass >= 2 {
      RestTop(fs, order);
      FinishedFrame(fs[k], order);
      assert [] + b == b;
      RestAll(fs[..k], order);
    } else {
      StepDown(fs, order);
    }
  }

  lemma StepDown(fs: seq<Frame>, order: int)
    requires GoodFrames(fs) && fs != [] && fs[|fs| - 1].pass < 2
    ensures Rest(fs, order) == Picked(Step(fs), order) + Rest(Step(fs), order)
  {
    hide TopRest, Walk, BelowRest, Below, Rest, Here;
    var k := |fs| - 1;
    var Frame(t, pass) := fs[k];
    var b := Below(fs[..k], order);
    RestTop(fs, order);
    FrameSplits(t, pass, order);
    var s, f := if pass == 0 then t.left else t.right, Frame(t, pass + 1);
    var r := fs[..k] + [f];
    assert r[..k] == fs[..k] && r[k] == f;
    RestBelow(r, order);
    if s.T? {
      PushedYields(r, Frame(s, 0), order);
      Reassociate(Here(s.node, order == 0), TopRest(Frame(s, 0), order), BelowRest(f, order), b);
    } else {
      assert Step(fs) == r;
      assert [] + BelowRest(f, order) == BelowRest(f, order);
      RestAll(r, order);
    }
  }

  lemma PushedYields(r: seq<Frame>, f: Frame, order: int)
    requires GoodFrames(r) && r != [] && r[|r| - 1].pass >= 1 && f.t.T? && f.pass == 0
    ensures GoodFrames(r + [f])
    ensures Picked(r + [f], order) + Rest(r + [f], order) == Here(f.t.node, order == 0)
      + (TopRest(f, order) + Below(r, order))
  {
    hide TopRest, Below;
    assert (r + [f])[..|r|] == r;
  }

  lemma FinishedFrame(f: Frame, order: int)
    requires f.t.T? && f.pass >= 2
    ensures TopRest(f, order) == []
  {
  }

  // ---- termination and path length ----

  /** Turns of the loop a subtree costs. */
  ghost function Turns(t: Tree): nat {
    match t case Nil => 0 case T(l, _, _, r) => 3 + Turns(l) + Turns(r)
  }

  ghost function FrameWork(f: Frame): nat
    requires f.t.T?
  {
    if f.pass == 0 then Turns(f.t) else if f.pass == 1 then 2 + Turns(f.t.right) else 1
  }

  ghost function Work(fs: seq<Frame>): nat
    requires GoodFrames(fs)
  {
    if fs == [] then 0 else Work(fs[..|fs| - 1]) + FrameWork(fs[|fs| - 1])
  }

  lemma GoodPush(fs: seq<Frame>, f: Frame)
    requires GoodFrames(fs) && (fs == [] || fs[|fs| - 1].pass >= 1) && f.t.T? && 0 <= f.pass <= 2
    ensures GoodFrames(fs + [f])
  {
    var r := fs + [f];
    forall i | 0 <= i < |r| ensures r[i].t.T? && 0 <= r[i].pass <= 2 {
      if i < |fs| { assert r[i] == fs[i]; }
    }
    forall i | 0 <= i < |r| - 1 ensures r[i].pass >= 1 { assert r[i] == fs[i]; }
  }

  lemma WorkPush(fs: seq<Frame>, f: Frame)
    requires GoodFrames(fs) && (fs == [] || fs[|fs| - 1].pass >= 1) && f.t.T? && 0 <= f.pass <= 2
    ensures GoodFrames(fs + [f]) && Work(fs + [f]) == Work(fs) + FrameWork(f)
  {
    hide FrameWork, GoodFrames;
    GoodPush(fs, f);
    assert (fs + [f])[..|fs|] == fs;
  }

  lemma WorkPop(fs: seq<Frame>)
    requires GoodFrames(fs) && fs != []
    ensures
      var k := |fs| - 1;
      && GoodFrames(fs[..k]) && (fs[..k] == [] || fs[..k][k - 1].pass >= 1) && fs[k].t.T? && 0 <= fs[k].pass <= 2
      && Work(fs) == Work(fs[..k]) + FrameWork(fs[k])
  {
    hide FrameWork;
  }

  lemma PassWorks(t: Tree, pass: int)
    requires t.T? && 0 <= pass < 2
    ensures
      var s := if pass == 0 then t.left else t.right;
      FrameWork(Frame(t, pass + 1)) + (if s.T? then FrameWork(Frame(s, 0)) else 0) < FrameWork(Frame(t, pass))
  {
  }

  lemma StepWorks(fs: seq<Frame>)
    requires GoodFrames(fs) && fs != []
    ensures Work(Step(fs)) < Work(fs)
  {
    hide Work, FrameWork, GoodFrames;
    var k := |fs| - 1;
    var f := fs[k];
    WorkPop(fs);
    if f.pass >= 2 {
      LastWork(f);
    } else {
      var s := if f.pass == 0 then f.t.left else f.t.right;
      var g := Frame(f.t, f.pass + 1);
      PassWorks(f.t, f.pass);
      WorkPush(fs[..k], g);
      if s.T? {
        WorkPush(fs[..k] + [g], Frame(s, 0));
      } else {
        assert Step(fs) == fs[..k] + [g];
      }
    }
  }

  lemma LastWork(f: Frame)
    requires f.t.T? && f.pass >= 2
    ensures FrameWork(f) == 1
  {
  }

  function Height(t: Tree): nat {
    match t
    case Nil => 0
    case T(l, _, _, r) => 1 + (if Height(l) > Height(r) then Height(l) else Height(r))
  }

  /** No path is longer than twice the black height, plus one for a red root. */
  lemma {:induction false} HeightBound(t: Tree)
    requires RedBlack(t)
    ensures Height(t) <= 2 * BlackHeight(t) + (if IsRed(t) then 1 else 0)
  {
    if t.T? {
      HeightBound(t.left);
      HeightBound(t.right);
    }
  }

  lemma {:induction false} SizeBound(t: Tree)
    requires RedBlack(t)
    ensures |Elems(t)| + 1 >= Pow2(BlackHeight(t))
  {
    if t.T? {
      SizeBound(t.left);
      SizeBound(t.right);
    }
  }

  /** A valid tree of fewer than 2^63 nodes fits the iterator's path. */
  lemma PathFits(t: Tree)
    requires ValidTree(t) && |Elems(t)| < 0x8000_0000_0000_0000
    ensures Height(t) <= MAX_TREE_DEEP
  {
    HeightBound(t);
    SizeBound(t);
    Pow2At64();
    if BlackHeight(t) >= 64 {
      Pow2Grows(64, BlackHeight(t));
    }
  }

  // ---- iterating over the elements equal to a given one ----

  /** What is visited: every node, or those that `equalto` equals. `side` is what the comparator, or the
      subcomparator, says of `equalto` and a node. */
  datatype Filter = Every | Only(side: Node -> int)

  /** SGLIB___BIN_TREE_FIND_MEMBER: the topmost equal node on the search path, with its subtree. */
  ghost function Found(t: Tree, only: Filter): Tree {
    if only.Every? || t.Nil? then t
    else if only.side(t.node) < 0 then Found(t.left, only)
    else if only.side(t.node) > 0 then Found(t.right, only)
    else t
  }

  /** The tree the iterator walks: below every node it keeps what it finds in the two subtrees. */
  ghost function Pruned(t: Tree, only: Filter): Tree {
    match t
    case Nil => Nil
    case T(l, n, c, r) =>
      if only.Only? && only.side(n) < 0 then Pruned(l, only)
      else if only.Only? && only.side(n) > 0 then Pruned(r, only)
      else T(Pruned(l, only), n, c, Pruned(r, only))
  }

  lemma {:induction false} FoundIsPruned(t: Tree, only: Filter)
    ensures
      var s := Found(t, only);
      if s.Nil? then Pruned(t, only) == Nil
      else Pruned(t, only) == T(Pruned(s.left, only), s.node, s.color, Pruned(s.right, only))
  {
    if t.T? && only.Only? {
      if only.side(t.node) < 0 {
        FoundIsPruned(t.left, only);
      } else if only.side(t.node) > 0 {
        FoundIsPruned(t.right, only);
      }
    }
  }

  lemma {:induction false} PruneNone(t: Tree)
    ensures Pruned(t, Every) == t
  {
    if t.T? {
      PruneNone(t.left);
      PruneNone(t.right);
    }
  }

  lemma {:induction false} PrunedHeight(t: Tree, only: Filter)
    ensures Height(Pruned(t, only)) <= Height(t)
  {
    if t.T? {
      PrunedHeight(t.left, only);
      PrunedHeight(t.right, only);
    }
  }

  function Sign(x: int): int { if x > 0 then 1 else if x < 0 then -1 else 0 }

  /** The comparator agrees with the order of the nodes: `equalto` is greater than the first of them, then
      equal to some, then smaller. */
  ghost predicate Agrees(s: seq<Node>, side: Node -> int) {
    forall i, j :: 0 <= i < j < |s| ==> Sign(side(s[i])) >= Sign(side(s[j]))
  }

  lemma AgreesParts(a: seq<Node>, n: Node, b: seq<Node>, side: Node -> int)
    requires Agrees(a + [n] + b, side)
    ensures Agrees(a, side) && Agrees(b, side)
    ensures forall x :: x in a ==> Sign(side(x)) >= Sign(side(n))
    ensures forall x :: x in b ==> Sign(side(x)) <= Sign(side(n))
  {
    var s := a + [n] + b;
    assert s[|a|] == n;
    forall i, j | 0 <= i < j < |a| ensures Sign(side(a[i])) >= Sign(side(a[j])) {
      assert s[i] == a[i] && s[j] == a[j];
    }
    forall i, j | 0 <= i < j < |b| ensures Sign(side(b[i])) >= Sign(side(b[j])) {
      assert s[|a| + 1 + i] == b[i] && s[|a| + 1 + j] == b[j];
    }
    forall x | x in a ensures Sign(side(x)) >= Sign(side(n)) {
      var i :| 0 <= i < |a| && a[i] == x;
      assert s[i] == x;
    }
    forall x | x in b ensures Sign(side(x)) <= Sign(side(n)) {
      var i :| 0 <= i < |b| && b[i] == x;
      assert s[|a| + 1 + i] == x;
    }
  }

  lemma EqualsAround(a: seq<Node>, n: Node, b: seq<Node>, side: Node -> int)
    ensures
      MergeSpec.Class(a + [n] + b, side, 0)
        == MergeSpec.Class(a, side, 0) + (if side(n) == 0 then [n] else []) + MergeSpec.Class(b, side, 0)
  {
    hide MergeSpec.Class;
    MergeSpec.ClassConcat(a + [n], b, side, 0);
    MergeSpec.ClassConcat(a, [n], side, 0);
    MergeSpec.ClassNil(side, 0);
    MergeSpec.ClassCons(n, [], side, 0);
    assert [n] + [] == [n];
  }

  /** Where the comparator agrees with the order, the iterator's tree holds exactly the equal nodes, in order. */
  lemma {:induction false} PrunedIsEquals(t: Tree, side: Node -> int)
    requires Agrees(Elems(t), side)
    ensures Elems(Pruned(t, Only(side))) == MergeSpec.Class(Elems(t), side, 0)
  {
    hide Agrees, MergeSpec.Class;
    MergeSpec.ClassNil(side, 0);
    if t.T? {
      var a, n, b := Elems(t.left), t.node, Elems(t.right);
      AgreesParts(a, n, b, side);
      EqualsAround(a, n, b, side);
      if side(n) < 0 {
        MergeSpec.ClassEmpty(b, side, 0);
        assert MergeSpec.Class(a, side, 0) + [] + [] == MergeSpec.Class(a, side, 0);
      } else if side(n) > 0 {
        MergeSpec.ClassEmpty(a, side, 0);
        assert [] + [] + MergeSpec.Class(b, side, 0) == MergeSpec.Class(b, side, 0);
      }
      PrunedIsEquals(t.left, side);
      PrunedIsEquals(t.right, side);
    }
  }

  /** What the tree's own comparator says of `e` and a node. */
  function SideOf(e: Node): Node -> int { (x: Node) => Cmp(e, x) }

  lemma SideIs(e: Node, x: Node)
    ensures SideOf(e)(x) == 0 <==> e.n == x.n
    ensures if Near(e, x) then SideOf(e)(x) < 0 <==> e.n < x.n else SideOf(e)(x) < 0 <==> e.n > x.n
  {
    var d := e.n - x.n;
    assert Cmp(e, x) == if d < -0x8000_0000 then d + 0x1_0000_0000 else if Near(e, x) then d else d - 0x1_0000_0000;
  }

  /** It agrees with the order as long as no difference overflows. */
  lemma CmpAgrees(t: Tree, e: Node)
    requires Sorted(Elems(t)) && forall x :: x in Elems(t) ==> Near(e, x)
    ensures Agrees(Elems(t), SideOf(e))
  {
    var s := Elems(t);
    forall i, j | 0 <= i < j < |s| ensures Sign(SideOf(e)(s[i])) >= Sign(SideOf(e)(s[j])) {
      SideIs(e, s[i]);
      SideIs(e, s[j]);
    }
  }

  ghost predicate HasKey(t: Tree, e: Node) {
    t.T? && (t.node.n == e.n || HasKey(t.left, e) || HasKey(t.right, e))
  }

  lemma {:induction false} KeyElem(t: Tree, e: Node) returns (x: Node)
    requires HasKey(t, e)
    ensures x in Elems(t) && x.n == e.n
  {
    x := t.node;
    if HasKey(t.left, e) { x := KeyElem(t.left, e); } else if HasKey(t.right, e) { x := KeyElem(t.right, e); }
  }

  /** From every node with `e`'s key at or below it, `e`'s key differs by what an `int` can hold. */
  ghost predicate NearAbove(t: Tree, e: Node) {
    HasKey(t, e) ==> Near(e, t.node) && NearAbove(t.left, e) && NearAbove(t.right, e)
  }

  /** The nodes of `e`'s key, counted around the root. */
  lemma EqualParts(t: Tree, e: Node)
    requires t.T? && Sorted(Elems(t))
    ensures Sorted(Elems(t.left)) && Sorted(Elems(t.right))
    ensures e.n < t.node.n ==> !HasKey(t.right, e)
    ensures e.n > t.node.n ==> !HasKey(t.left, e)
    ensures
      MergeSpec.Class(Elems(t), SideOf(e), 0)
        == MergeSpec.Class(Elems(t.left), SideOf(e), 0) + (if e.n == t.node.n then [t.node] else [])
           + MergeSpec.Class(Elems(t.right), SideOf(e), 0)
  {
    hide MergeSpec.Class, SideOf;
    SortedSplit(Elems(t.left), t.node, Elems(t.right));
    if HasKey(t.left, e) { var x := KeyElem(t.left, e); }
    if HasKey(t.right, e) { var x := KeyElem(t.right, e); }
    EqualsAround(Elems(t.left), t.node, Elems(t.right), SideOf(e));
    SideIs(e, t.node);
  }

  lemma {:induction false} NoKey(t: Tree, e: Node)
    requires !HasKey(t, e) && Sorted(Elems(t))
    ensures MergeSpec.Class(Elems(t), SideOf(e), 0) == [] && Pruned(t, Only(SideOf(e))) == Nil
  {
    hide SideOf;
    if t.T? {
      EqualParts(t, e);
      NoKey(t.left, e);
      NoKey(t.right, e);
      SideIs(e, t.node);
    } else {
      MergeSpec.ClassNil(SideOf(e), 0);
    }
  }

  lemma {:induction false} SomeKey(t: Tree, e: Node)
    requires HasKey(t, e) && Sorted(Elems(t))
    ensures MergeSpec.Class(Elems(t), SideOf(e), 0) != []
  {
    hide SideOf;
    EqualParts(t, e);
    if HasKey(t.left, e) { SomeKey(t.left, e); } else if HasKey(t.right, e) { SomeKey(t.right, e); }
  }

  /** After one wrong comparison on the way to a node of `e`'s key that node is missed. */
  lemma {:induction false} PrunedCount(t: Tree, e: Node)
    requires Sorted(Elems(t))
    ensures
      var found, all := Elems(Pruned(t, Only(SideOf(e)))), MergeSpec.Class(Elems(t), SideOf(e), 0);
      if NearAbove(t, e) then found == all else |found| < |all|
  {
    hide SideOf, MergeSpec.Class, Sorted;
    if !HasKey(t, e) {
      NoKey(t, e);
    } else {
      EqualParts(t, e);
      SideIs(e, t.node);
      if !Near(e, t.node) {
        SomeKey(t, e);
        if SideOf(e)(t.node) < 0 { NoKey(t.left, e); } else { NoKey(t.right, e); }
      } else {
        PrunedCount(t.left, e);
        PrunedCount(t.right, e);
        if e.n < t.node.n { NoKey(t.right, e); }
        if e.n > t.node.n { NoKey(t.left, e); }
      }
    }
  }

  /** With the tree's own comparator the iterator keeps exactly the nodes of `e`'s key if and only if no comparison
      of `e` with one of them or a node above one of them overflows. */
  lemma CmpFindsIff(t: Tree, e: Node)
    requires Sorted(Elems(t))
    ensures Elems(Pruned(t, Only(SideOf(e)))) == MergeSpec.Class(Elems(t), SideOf(e), 0) <==> NearAbove(t, e)
  {
    hide MergeSpec.Class, Pruned, Sorted, SideOf;
    PrunedCount(t, e);
  }

  // ---- the iterator object ----

  predicate SubTreeOf(x: Tree, t: Tree) {
    x == t || (t.T? && (SubTreeOf(x, t.left) || SubTreeOf(x, t.right)))
  }

  lemma {:induction false} ChildIsSubTree(x: Tree, t: Tree)
    requires SubTreeOf(x, t) && x.T?
    ensures SubTreeOf(x.left, t) && SubTreeOf(x.right, t)
  {
    if x == t {
      assert SubTreeOf(x.left, x.left) && SubTreeOf(x.right, x.right);
    } else if SubTreeOf(x, t.left) {
      ChildIsSubTree(x, t.left);
    } else {
      ChildIsSubTree(x, t.right);
    }
  }

  lemma {:induction false} SubTreeRep(p: Node?, t: Tree, x: Tree)
    requires Rep(p, t) && SubTreeOf(x, t) && x.T?
    ensures Rep(x.node, x)
    ensures x.node.left == (if x.left.T? then x.left.node else null)
    ensures x.node.right == (if x.right.T? then x.right.node else null)
  {
    if x == t {
      assert Rep(x.node.left, x.left) && Rep(x.node.right, x.right);
    } else if SubTreeOf(x, t.left) {
      SubTreeRep(p.left, t.left, x);
    } else {
      SubTreeRep(p.right, t.right, x);
    }
  }

  /** Each frame is a subtree of `t`, with room for the path below it. */
  ghost predicate FramesOf(fs: seq<Frame>, t: Tree) {
    && GoodFrames(fs) && |fs| <= MAX_TREE_DEEP
    && forall i :: 0 <= i < |fs| ==> SubTreeOf(fs[i].t, t) && Height(fs[i].t) + i <= MAX_TREE_DEEP
  }

  lemma StepFramesOf(fs: seq<Frame>, t: Tree)
    requires FramesOf(fs, t) && fs != []
    ensures FramesOf(Step(fs), t)
  {
    var f := fs[|fs| - 1];
    ChildIsSubTree(f.t, t);
    assert f.t.left.T? ==> Height(f.t.left) >= 1;
    assert f.t.right.T? ==> Height(f.t.right) >= 1;
  }

  /** A node of the iterator's tree, in the tree itself. */
  lemma {:induction false} Unpruned(x: Tree, t: Tree, only: Filter) returns (s: Tree)
    requires SubTreeOf(x, Pruned(t, only)) && x.T?
    ensures SubTreeOf(s, t) && s.T? && s.node == x.node
    ensures x.left == Pruned(s.left, only) && x.right == Pruned(s.right, only)
  {
    if only.Only? && only.side(t.node) < 0 {
      s := Unpruned(x, t.left, only);
    } else if only.Only? && only.side(t.node) > 0 {
      s := Unpruned(x, t.right, only);
    } else if x == Pruned(t, only) {
      s := t;
    } else if SubTreeOf(x, Pruned(t.left, only)) {
      s := Unpruned(x, t.left, only);
    } else {
      s := Unpruned(x, t.right, only);
    }
  }

  method FindMember(tree: Node?, only: Filter, ghost t: Tree) returns (s: Node?)
    requires Rep(tree, t) && only.Only?
    ensures Rep(s, Found(t, only))
  {
    s := tree;
    ghost var x := t;
    while s != null
      invariant Rep(s, x) && Found(x, only) == Found(t, only)
      decreases x
    {
      var c := only.side(s);
      if c < 0 {
        s, x := s.left, x.left;
      } else if c > 0 {
        s, x := s.right, x.right;
      } else {
        break;
      }
    }
  }

  lemma NothingToWalk(order: int)
    ensures Walk(Nil, order) == [] && Rest([], order) == [] && FramesOf([], Nil)
  {
  }

  lemma StartFrames(u: Tree, order: int)
    requires u.T? && Height(u) <= MAX_TREE_DEEP
    ensures GoodFrames([Frame(u, 0)]) && FramesOf([Frame(u, 0)], u)
    ensures Walk(u, order) == Here(u.node, order == 0) + Rest([Frame(u, 0)], order)
  {
    WalkSplits(u, order);
    assert TopRest(Frame(u, 0), order) + [] == TopRest(Frame(u, 0), order);
  }

  /** With a filter, the search for the topmost equal node. */
  method Topmost(tree: Node?, only: Filter, ghost t: Tree) returns (s: Node?)
    requires Rep(tree, t)
    ensures
      var x := Pruned(t, only);
      s == if x.T? then x.node else null
  {
    FoundIsPruned(t, only);
    s := tree;
    if only.Only? {
      s := FindMember(tree, only, t);
    }
  }

  class TreeIterator {
    var currentelem: Node?
    const pass: array<int>
    const path: array<Node?>
    var pathi: int
    var order: int
    var only: Filter
    ghost var frames: seq<Frame>

    /** The first `pathi` array entries hold the frames, all from what the filter leaves of the tree `t`. */
    ghost predicate Valid(t: Tree)
      reads this, pass, path
    {
      && pass.Length == MAX_TREE_DEEP && path.Length == MAX_TREE_DEEP
      && GoodFrames(frames) && |frames| <= MAX_TREE_DEEP && FramesOf(frames, Pruned(t, only)) && pathi == |frames|
      && forall i :: 0 <= i < |frames| ==> pass[i] == frames[i].pass && path[i] == frames[i].t.node
    }

    /** The nodes still to be yielded. */
    ghost function Remaining(): seq<Node>
      requires GoodFrames(frames)
      reads this
    {
      Rest(frames, order)
    }

    /** The current node, if any, and those after it. */
    ghost function Pending(): seq<Node>
      requires GoodFrames(frames)
      reads this
    {
      if currentelem == null then [] else [currentelem] + Remaining()
    }

    constructor ()
      ensures pass.Length == MAX_TREE_DEEP && path.Length == MAX_TREE_DEEP && fresh(pass) && fresh(path)
    {
      pass := new int[MAX_TREE_DEEP](_ => 0);
      path := new Node?[MAX_TREE_DEEP](_ => null);
      currentelem, pathi, order, only, frames := null, 0, 0, Every, [];
    }

    /** The topmost node to be visited in the subtree that is next, or none. */
    method NextBelow(i: int, ghost tree: Node?, ghost t: Tree) returns (s: Node?)
      requires Valid(t) && Rep(tree, t) && 0 <= i < pathi && pass[i] < 2
      ensures
        var f := frames[i];
        var x := if f.pass == 0 then f.t.left else f.t.right;
        s == if x.T? then x.node else null
    {
      ghost var x := Unpruned(frames[i].t, t, only);
      SubTreeRep(tree, t, x);
      ChildRep(x);
      s := if pass[i] == 0 then path[i].left else path[i].right;
      ghost var below := if pass[i] == 0 then x.left else x.right;
      s := Topmost(s, only, below);
    }

    /** One turn of the loop, on the arrays. */
    method Turn(ghost tree: Node?, ghost t: Tree)
      requires Valid(t) && Rep(tree, t) && pathi > 0
      modifies this`pathi, this`frames, pass, path
      ensures Valid(t) && frames == Step(old(frames))
    {
      var i := pathi - 1;
      StepFramesOf(frames, Pruned(t, only));
      hide SubTreeOf, Height, FramesOf, Pruned, Rep;
      ghost var fs := Step(frames);
      if pass[i] >= 2 {
        pathi := pathi - 1;
      } else {
        var s := NextBelow(i, tree, t);
        if s != null {
          var j := i + 1;
          path[j] := s;
          pass[j] := 0;
          pathi := pathi + 1;
        }
        pass[i] := pass[i] + 1;
      }
      frames := fs;
    }

    method ComputeCurrentElem(ghost tree: Node?, ghost t: Tree)
      requires Valid(t) && Rep(tree, t)
      modifies this`currentelem, this`pathi, this`frames, pass, path
      ensures Valid(t)
      ensures old(Remaining()) == Pending() && (currentelem == null ==> Remaining() == [])
    {
      AllAllocated(t);
      hide Step, TopRest, Below, FramesOf, Rep, Walk, Work;
      currentelem := null;
      while pathi > 0 && currentelem == null
        invariant Valid(t) && Rep(tree, t)
        invariant currentelem == null ==> old(Remaining()) == Remaining()
        invariant currentelem != null ==> old(Remaining()) == [currentelem] + Remaining()
        decreases Work(frames), currentelem == null
      {
        StepYields(frames, order);
        StepWorks(frames);
        Turn(tree, t);
        if pathi > 0 && order == pass[pathi - 1] {
          currentelem := path[pathi - 1];
        }
      }
    }

    /** `it_init`: `order` is 0, 1 or 2. */
    method Init(tree: Node?, order: int, only: Filter, ghost t: Tree)
      requires pass.Length == MAX_TREE_DEEP && path.Length == MAX_TREE_DEEP
      requires Rep(tree, t) && Height(t) <= MAX_TREE_DEEP
      modifies this, pass, path
      ensures Valid(t) && GoodFrames(frames) && this.order == order && this.only == only
      ensures Walk(Pruned(t, only), order) == Pending() && (currentelem == null ==> Remaining() == [])
    {
      hide Pruned, Walk, Rest, TopRest, FramesOf, Height, Rep;
      AllAllocated(t);
      NothingToWalk(order);
      this.order := order;
      this.only := only;
      currentelem := null;
      ghost var u := Pruned(t, only);
      PrunedHeight(t, only);
      var top := Topmost(tree, only, t);
      if top == null {
        pathi, frames := 0, [];
      } else {
        pathi := 1;
        pass[0] := 0;
        path[0] := top;
        frames := [Frame(u, 0)];
        StartFrames(u, order);
        if order == 0 {
          currentelem := top;
        } else {
          ComputeCurrentElem(tree, t);
        }
      }
    }

    lemma ChildRep(x: Tree)
      requires x.T? && Rep(x.node, x)
      ensures Rep(x.node.left, x.left) && Rep(x.node.right, x.right)
    {
    }

    /** `it_next`. */
    method Next(ghost tree: Node?, ghost t: Tree)
      requires Valid(t) && Rep(tree, t)
      modifies this`currentelem, this`pathi, this`frames, pass, path
      ensures Valid(t) && GoodFrames(frames)
      ensures old(Remaining()) == Pending() && (currentelem == null ==> Remaining() == [])
    {
      ComputeCurrentElem(tree, t);
    }
  }

  /** The client loop `for (e = it_init(..); e != NULL; e = it_next(..))` visits exactly the
      traversal: every node that is asked for once, in the order asked for. */
  method VisitAll(tree: Node?, order: int, only: Filter, ghost t: Tree) returns (visited: seq<Node>)
    requires Rep(tree, t) && ValidTree(t) && |Elems(t)| < 0x8000_0000_0000_0000
    ensures visited == Walk(Pruned(t, only), order)
    ensures only.Every? ==> visited == Walk(t, order)
    ensures only.Only? && order == 1 && Agrees(Elems(t), only.side) ==>
      visited == MergeSpec.Class(Elems(t), only.side, 0)
  {
    hide Walk, Rest, Height, Elems, Sorted, RedBlack, GoodFrames, Pruned, Agrees, MergeSpec.Class, Here,
         TreeIterator.Valid, Rep;
    AllAllocated(t);
    PathFits(t);
    var it := new TreeIterator();
    it.Init(tree, order, only, t);
    ghost var walk := Walk(Pruned(t, only), order);
    visited := [];
    while it.currentelem != null
      invariant it.Valid(t) && Rep(tree, t) && fresh(it) && fresh(it.pass) && fresh(it.path)
      invariant it.order == order && it.only == only && GoodFrames(it.frames)
      invariant walk == visited + it.Pending()
      decreases |walk| - |visited|
    {
      MoveOn(visited, it.currentelem, it.Remaining());
      visited := visited + [it.currentelem];
      it.Next(tree, t);
    }
    AllOrEqual(t, order, only);
  }

  lemma MoveOn(a: seq<Node>, n: Node, b: seq<Node>)
    ensures a + ([n] + b) == (a + [n]) + b && |a| < |a + ([n] + b)|
  {
  }

  lemma AllOrEqual(t: Tree, order: int, only: Filter)
    ensures only.Every? ==> Walk(Pruned(t, only), order) == Walk(t, order)
    ensures only.Only? && order == 1 && Agrees(Elems(t), only.side) ==>
      Walk(Pruned(t, only), order) == MergeSpec.Class(Elems(t), only.side, 0)
  {
    hide Walk, Elems, Pruned, Agrees;
    if only.Every? {
      PruneNone(t);
    } else if order == 1 && Agrees(Elems(t), only.side) {
      PrunedIsEquals(t, only.side);
      WalkVisitsAll(Pruned(t, only), 1);
    }
  }

  lemma WalkShape(t: Tree, order: int)
    requires t.T? && 0 <= order <= 2
    ensures
      var a, n, b := Walk(t.left, order), [t.node], Walk(t.right, order);
      Walk(t, order) == if order == 0 then n + (a + b) else if order == 1 then a + n + b else a + b + n
  {
    hide Elems;
    var a, n, b := Walk(t.left, order), [t.node], Walk(t.right, order);
    assert [] + (a + n + b + []) == a + n + b;
    assert [] + (a + [] + b + n) == a + b + n;
    assert n + (a + [] + b + []) == n + (a + b);
  }

  lemma ThreeOrders(a: seq<Node>, n: seq<Node>, b: seq<Node>)
    ensures multiset(n + (a + b)) == multiset(a) + multiset(n) + multiset(b)
    ensures multiset(a + n + b) == multiset(a) + multiset(n) + multiset(b)
    ensures multiset(a + b + n) == multiset(a) + multiset(n) + multiset(b)
  {
  }

  /** In-order traversal is the sorted sequence; all three visit the same nodes equally often. */
  lemma {:induction false} WalkVisitsAll(t: Tree, order: int)
    requires 0 <= order <= 2
    ensures multiset(Walk(t, order)) == multiset(Elems(t))
    ensures order == 1 ==> Walk(t, order) == Elems(t)
  {
    if t.T? {
      WalkVisitsAll(t.left, order);
      WalkVisitsAll(t.right, order);
      WalkShape(t, order);
      ThreeOrders(Walk(t.left, order), [t.node], Walk(t.right, order));
      ThreeOrders(Elems(t.left), [t.node], Elems(t.right));
    }
  }
}
