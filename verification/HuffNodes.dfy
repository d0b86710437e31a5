/** The nodes of a trie, named by the bits that lead to them. */
module HuffNodes {
  import opened HuffTree
  import opened HuffForest

  function Child(t: HTree, b: bool): HTree
    requires t.Fork?
  {
    if b then t.one else t.zero
  }

  ghost predicate Inner(t: HTree, u: seq<bool>)
    decreases |u|
  {
    t.Fork? && (u == [] || Inner(Child(t, u[0]), u[1..]))
  }

  ghost predicate LeafPath(t: HTree, u: seq<bool>)
    decreases |u|
  {
    if t.Leaf? then u == [] else u != [] && LeafPath(Child(t, u[0]), u[1..])
  }

  lemma {:induction false} NodeStep(t: HTree, u: seq<bool>, b: bool)
    requires Inner(t, u)
    ensures Inner(t, u + [b]) || LeafPath(t, u + [b])
    decreases |u|
  {
    var v := u + [b];
    if u == [] {
      assert v[1..] == [];
    } else {
      assert v[0] == u[0] && v[1..] == u[1..] + [b];
      NodeStep(Child(t, u[0]), u[1..], b);
    }
  }

  lemma {:induction false} AboveLeaf(t: HTree, u: seq<bool>, n: nat)
    requires LeafPath(t, u) && n < |u|
    ensures Inner(t, u[..n])
    decreases |u|
  {
    if n > 0 {
      assert u[..n][1..] == u[1..][..n - 1];
      AboveLeaf(Child(t, u[0]), u[1..], n - 1);
    }
  }

  lemma {:induction false} WithinDepth(t: HTree, u: seq<bool>)
    ensures Inner(t, u) ==> |u| < Depth(t)
    ensures LeafPath(t, u) ==> |u| <= Depth(t)
    decreases |u|
  {
    if t.Fork? && u != [] { WithinDepth(Child(t, u[0]), u[1..]); }
  }

  lemma {:induction false} NoLeafOnTheWay(t: HTree, u: seq<bool>)
    requires t.Fork? && forall i :: 1 <= i <= |u| ==> !LeafPath(t, u[..i])
    ensures Inner(t, u)
    decreases |u|
  {
    if u != [] {
      var v := u[..|u| - 1];
      forall i | 1 <= i <= |v| ensures !LeafPath(t, v[..i]) { assert v[..i] == u[..i]; }
      NoLeafOnTheWay(t, v);
      NodeStep(t, v, u[|u| - 1]);
      assert v + [u[|u| - 1]] == u == u[..|u|];
    }
  }

  /** The sibling of a deepest leaf is a leaf. */
  lemma DeepestSibling(t: HTree, u: seq<bool>, b: bool)
    requires Inner(t, u) && |u| + 1 == Depth(t)
    ensures LeafPath(t, u + [b])
  {
    NodeStep(t, u, b);
    WithinDepth(t, u + [b]);
  }

  lemma {:induction false} PathIsLeaf(t: HTree, m: nat)
    requires WellNumbered(t) && m in Symbols(t) && m in Ids(t)
    ensures LeafPath(t, PathTo(t, m))
  {
    SymbolsAreIds(t);
    if t.Fork? {
      SymbolsAreIds(t.zero);
      SymbolsAreIds(t.one);
      var p := PathTo(t, m);
      PathIsLeaf(if m in Ids(t.zero) then t.zero else t.one, m);
      assert p[1..] == PathTo(if m in Ids(t.zero) then t.zero else t.one, m);
    }
  }

  lemma {:induction false} LeafHasSymbol(t: HTree, u: seq<bool>) returns (m: nat)
    requires WellNumbered(t) && LeafPath(t, u)
    ensures m in Symbols(t) && m in Ids(t) && m < 256 && PathTo(t, m) == u
    decreases |u|
  {
    if t.Leaf? {
      m := t.sym;
    } else {
      m := LeafHasSymbol(Child(t, u[0]), u[1..]);
      assert u == [u[0]] + u[1..];
    }
  }
}
