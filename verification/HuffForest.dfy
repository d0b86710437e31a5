/** The forest that huffbench's merge loop keeps in its arrays, and what one merge does to it. */
module HuffForest {
  import opened HuffTree
  import opened HuffOptimal
  import opened HuffPrefix
  import opened HuffHeap

  /** Sum of the leaf frequencies. */
  ghost function Weight(f: seq<nat>, t: HTree): nat
    requires |f| == 512
  {
    match t
    case Leaf(s) => if s < 256 then f[s] else 0
    case Fork(_, z, o) => Weight(f, z) + Weight(f, o)
  }

  /** Weighted path length: every fork counts the weight below it once. */
  ghost function PathCost(f: seq<nat>, t: HTree): nat
    requires |f| == 512
  {
    match t
    case Leaf(_) => 0
    case Fork(_, z, o) => PathCost(f, z) + PathCost(f, o) + Weight(f, z) + Weight(f, o)
  }

  /** The trees below the roots in `hs`: recorded in `link`, weighted in `freq`, disjoint, with
      fork numbers from 256+n up, over exactly the symbols `syms`. */
  ghost predicate Forest(f: seq<nat>, link: seq<int>, hs: seq<nat>, trees: seq<HTree>, syms: set<nat>) {
    && |f| == 512 && |link| == 512 && |trees| == 512 && InTable(hs)
    && (forall r :: multiset(hs)[r] <= 1)
    && (forall r :: r in hs ==> Planted(f, link, r, trees[r], |hs|))
    && (forall r, q :: r in hs && q in hs && r != q ==> Ids(trees[r]) !! Ids(trees[q]))
    && Covers(hs, trees, syms)
  }

  /** The leaves of the trees are exactly `syms`. */
  ghost predicate Covers(hs: seq<nat>, trees: seq<HTree>, syms: set<nat>)
    requires |trees| == 512 && InTable(hs)
  {
    && (forall r, s :: r in hs && s in Symbols(trees[r]) ==> s in syms)
    && (forall s :: s in syms ==> exists r :: r in hs && s in Symbols(trees[r]))
  }

  ghost predicate Planted(f: seq<nat>, link: seq<int>, r: nat, t: HTree, n: nat)
    requires |f| == 512 && |link| == 512
  {
    && RootId(t) == r && r < 512 && WellNumbered(t) && Linked(link, t) && f[r] == Weight(f, t)
    && forall x :: x in Ids(t) && x >= 256 ==> x >= 256 + n
  }

  // ---- values picked from a table ----

  ghost function Pick(table: seq<nat>, hs: seq<nat>): seq<nat>
    requires |table| == 512 && InTable(hs)
  {
    seq(|hs|, i requires 0 <= i < |hs| => table[hs[i]])
  }

  lemma InTableParts(a: seq<nat>, b: seq<nat>)
    ensures InTable(a + b) <==> InTable(a) && InTable(b)
  {
    forall i | 0 <= i < |a| && InTable(a + b) ensures a[i] < 512 { assert (a + b)[i] == a[i]; }
    forall i | 0 <= i < |b| && InTable(a + b) ensures b[i] < 512 { assert (a + b)[|a| + i] == b[i]; }
  }

  lemma PickConcat(table: seq<nat>, a: seq<nat>, b: seq<nat>)
    requires |table| == 512 && InTable(a) && InTable(b)
    ensures InTable(a + b) && Pick(table, a + b) == Pick(table, a) + Pick(table, b)
  {
  }

  lemma PickInsert(table: seq<nat>, p: seq<nat>, x: nat, s: seq<nat>)
    requires |table| == 512 && InTable(p + ([x] + s))
    ensures x < 512 && InTable(p + s)
    ensures multiset(Pick(table, p + ([x] + s))) == multiset(Pick(table, p + s)) + multiset{table[x]}
    ensures Sum(Pick(table, p + ([x] + s))) == Sum(Pick(table, p + s)) + table[x]
  {
    InTableParts(p, [x] + s);
    InTableParts([x], s);
    assert [x][0] == x;
    InTableParts(p, s);
    PickConcat(table, p, [x] + s);
    PickConcat(table, [x], s);
    PickConcat(table, p, s);
    var a, v, b := Pick(table, p), Pick(table, [x]), Pick(table, s);
    assert v == [table[x]];
    SumConcat(a, v + b);
    SumConcat(v, b);
    SumConcat(a, b);
  }

  lemma SameRest(x: nat, tl: seq<nat>, p: seq<nat>, s: seq<nat>)
    requires multiset([] + ([x] + tl)) == multiset(p + ([x] + s))
    ensures multiset(tl) == multiset(p + s)
  {
    assert [] + ([x] + tl) == [x] + tl;
    assert multiset([x] + tl) == multiset{x} + multiset(tl);
    assert multiset(p + ([x] + s)) == multiset(p) + (multiset{x} + multiset(s));
    assert multiset(tl) == multiset([x] + tl) - multiset{x};
    assert multiset(p + s) == multiset(p + ([x] + s)) - multiset{x};
  }

  lemma SplitAt(b: seq<nat>, x: nat) returns (p: seq<nat>, s: seq<nat>)
    requires x in multiset(b)
    ensures b == p + ([x] + s)
  {
    var j :| 0 <= j < |b| && b[j] == x;
    p, s := b[..j], b[j + 1..];
  }

  /** Rearranging the roots rearranges the values. */
  lemma {:induction false} PickPerm(table: seq<nat>, a: seq<nat>, b: seq<nat>)
    requires |table| == 512 && InTable(a) && InTable(b) && multiset(a) == multiset(b)
    ensures multiset(Pick(table, a)) == multiset(Pick(table, b))
    ensures Sum(Pick(table, a)) == Sum(Pick(table, b))
  {
    hide Pick, Sum, InTable;
    assert |multiset(a)| == |multiset(b)|;
    if a == [] {
      assert b == [];
    } else {
      var x, tl := a[0], a[1..];
      assert a[0] in multiset(b);
      var p, s := SplitAt(b, x);
      assert a == [] + ([x] + tl) && [] + tl == tl;
      SameRest(x, tl, p, s);
      PickInsert(table, [], x, tl);
      PickInsert(table, p, x, s);
      PickPerm(table, tl, p + s);
    }
  }

  lemma PickUpdate(table: seq<nat>, hs: seq<nat>, id: nat, v: nat)
    requires |table| == 512 && InTable(hs) && id < 512 && id !in hs
    ensures Pick(table[id := v], hs) == Pick(table, hs)
  {
  }

  // ---- one merge ----

  lemma {:induction false} WeightFrame(f: seq<nat>, f': seq<nat>, t: HTree)
    requires |f| == |f'| == 512 && f[..256] == f'[..256]
    ensures Weight(f, t) == Weight(f', t) && PathCost(f, t) == PathCost(f', t)
  {
    match t
    case Leaf(s) => assert s < 256 ==> f[s] == f[..256][s] && f'[s] == f'[..256][s];
    case Fork(_, z, o) =>
      WeightFrame(f, f', z);
      WeightFrame(f, f', o);
  }

  /** The links recorded for a tree do not depend on the root's own link. */
  lemma {:induction false} LinkedFrame(link: seq<int>, link': seq<int>, t: HTree)
    requires |link'| == 512 && Linked(link, t) && WellNumbered(t)
    requires forall x :: x in Ids(t) && x != RootId(t) && x < 512 ==> link[x] == link'[x]
    ensures Linked(link', t)
  {
    if t.Fork? {
      IdsBound(t.zero);
      IdsBound(t.one);
      LinkedFrame(link, link', t.zero);
      LinkedFrame(link, link', t.one);
    }
  }

  lemma ForestPerm(f: seq<nat>, link: seq<int>, hs: seq<nat>, hs': seq<nat>, trees: seq<HTree>, syms: set<nat>)
    requires Forest(f, link, hs, trees, syms) && multiset(hs') == multiset(hs)
    ensures Forest(f, link, hs', trees, syms)
  {
    assert |hs| == |multiset(hs)| == |multiset(hs')| == |hs'|;
    assert forall r :: r in hs' <==> r in multiset(hs');
    assert forall r :: r in hs <==> r in multiset(hs);
    forall i | 0 <= i < |hs'| ensures hs'[i] < 512 {
      assert hs'[i] in hs;
    }
  }

  /** The new tree is planted at `id` over the two old ones. */
  lemma PlantFork(f: seq<nat>, link: seq<int>, a: nat, b: nat, ta: HTree, tb: HTree, n: nat)
    requires |f| == 512 && |link| == 512 && 2 <= n <= 256
    requires Planted(f, link, a, ta, n) && Planted(f, link, b, tb, n) && Ids(ta) !! Ids(tb)
    ensures a != b
    ensures
      var id := 256 + n - 1;
      Planted(f[id := f[b] + f[a]], link[a := id][b := 0 - id], id, Fork(id, ta, tb), n - 1)
  {
    var id := 256 + n - 1;
    var f', link' := f[id := f[b] + f[a]], link[a := id][b := 0 - id];
    IdsBound(ta);
    IdsBound(tb);
    assert a in Ids(ta) && b in Ids(tb);
    LinkedFrame(link, link', ta);
    LinkedFrame(link, link', tb);
    assert f[..256] == f'[..256];
    WeightFrame(f, f', ta);
    WeightFrame(f, f', tb);
  }

  /** A tree apart from the two merged ones stays planted. */
  lemma PlantedApart(f: seq<nat>, link: seq<int>, a: nat, b: nat, r: nat, t: HTree, n: nat)
    requires |f| == 512 && |link| == 512 && 2 <= n <= 256 && a < 512 && b < 512
    requires Planted(f, link, r, t, n) && a !in Ids(t) && b !in Ids(t)
    ensures
      var id := 256 + n - 1;
      id !in Ids(t) && r != id && Planted(f[id := f[b] + f[a]], link[a := id][b := 0 - id], r, t, n - 1)
  {
    var id := 256 + n - 1;
    var f', link' := f[id := f[b] + f[a]], link[a := id][b := 0 - id];
    IdsBound(t);
    LinkedFrame(link, link', t);
    assert f[..256] == f'[..256];
    WeightFrame(f, f', t);
  }

  lemma MergeForest(f: seq<nat>, link: seq<int>, a: nat, b: nat, rest: seq<nat>, trees: seq<HTree>, syms: set<nat>)
    requires |rest| + 2 <= 256 && Forest(f, link, [a, b] + rest, trees, syms)
    ensures a < 512 && b < 512 && a != b && a !in rest && b !in rest
    ensures
      var id := 256 + |rest| + 1;
      && id !in rest
      && Forest(f[id := f[b] + f[a]], link[a := id][b := 0 - id], [id] + rest,
                trees[id := Fork(id, trees[a], trees[b])], syms)
  {
    hide Planted, Linked, Ids, Covers, WellNumbered, Weight;
    var hs, id := [a, b] + rest, 256 + |rest| + 1;
    MergeDistinct(a, b, rest);
    assert hs[0] == a && hs[1] == b && a in hs && b in hs;
    PlantFork(f, link, a, b, trees[a], trees[b], |hs|);
    MergeRest(f, link, a, b, rest, trees, syms);
    OnceMore(id, rest);
    MergeSymbols(hs, a, b, rest, id, trees, syms);
  }

  lemma MergeDistinct(a: nat, b: nat, rest: seq<nat>)
    requires forall r :: multiset([a, b] + rest)[r] <= 1
    ensures a != b && a !in rest && b !in rest
    ensures forall r :: multiset(rest)[r] <= 1
  {
    assert multiset([a, b] + rest) == multiset{a} + multiset{b} + multiset(rest);
    assert multiset([a, b] + rest)[a] <= 1 && multiset([a, b] + rest)[b] <= 1;
    forall r ensures multiset(rest)[r] <= 1 { assert multiset([a, b] + rest)[r] <= 1; }
  }

  lemma OnceMore(x: nat, s: seq<nat>)
    requires x !in s && forall r :: multiset(s)[r] <= 1
    ensures forall r :: multiset([x] + s)[r] <= 1
  {
    assert multiset([x] + s) == multiset{x} + multiset(s);
    assert x !in multiset(s);
  }

  /** The other trees, and that the new one is apart from them. */
  lemma MergeRest(f: seq<nat>, link: seq<int>, a: nat, b: nat, rest: seq<nat>, trees: seq<HTree>, syms: set<nat>)
    requires |rest| + 2 <= 256 && Forest(f, link, [a, b] + rest, trees, syms)
    requires a < 512 && b < 512 && a != b && a !in rest && b !in rest
    ensures
      var id := 256 + |rest| + 1;
      && a != id && b != id && id !in rest
      && forall r :: r in rest ==>
        && r < 512 && Ids(trees[r]) !! Ids(Fork(id, trees[a], trees[b]))
        && Planted(f[id := f[b] + f[a]], link[a := id][b := 0 - id], r, trees[r], |rest| + 1)
  {
    var hs, id := [a, b] + rest, 256 + |rest| + 1;
    assert hs[0] == a && hs[1] == b && a in hs && b in hs;
    IdsBound(trees[a]);
    IdsBound(trees[b]);
    forall r | r in rest
      ensures r < 512 && r != id && Ids(trees[r]) !! Ids(Fork(id, trees[a], trees[b]))
      ensures Planted(f[id := f[b] + f[a]], link[a := id][b := 0 - id], r, trees[r], |rest| + 1)
    {
      assert r in hs;
      PlantedApart(f, link, a, b, r, trees[r], |hs|);
    }
  }

  lemma MergeSymbols(hs: seq<nat>, a: nat, b: nat, rest: seq<nat>, id: nat, trees: seq<HTree>, syms: set<nat>)
    requires hs == [a, b] + rest && InTable(hs) && id < 512 && id !in rest && |trees| == 512
    requires Covers(hs, trees, syms)
    ensures InTable([id] + rest)
    ensures Covers([id] + rest, trees[id := Fork(id, trees[hs[0]], trees[hs[1]])], syms)
  {
    var t := Fork(id, trees[hs[0]], trees[hs[1]]);
    var trees' := trees[id := t];
    var hs' := [id] + rest;
    assert hs[0] == a && hs[1] == b;
    assert a in hs && b in hs;
    InTableParts([a, b], rest);
    InTableParts([id], rest);
    assert forall r :: r in rest ==> r in hs;
    forall s | s in syms ensures exists r :: r in hs' && s in Symbols(trees'[r]) {
      var r :| r in hs && s in Symbols(trees[r]);
      if r == a || r == b {
        assert id in hs' && s in Symbols(trees'[id]);
      } else {
        assert r in rest && r in hs' && trees'[r] == trees[r];
      }
    }
  }

  // ---- what a merge costs ----

  ghost function CostTable(f: seq<nat>, trees: seq<HTree>): (r: seq<nat>)
    requires |f| == 512 && |trees| == 512
    ensures |r| == 512
  {
    seq(512, r requires 0 <= r < 512 => PathCost(f, trees[r]))
  }

  /** What has been spent on the trees so far plus what greedy merging of the roots will still cost. */
  ghost function TotalCost(f: seq<nat>, trees: seq<HTree>, hs: seq<nat>): nat
    requires |f| == 512 && |trees| == 512 && InTable(hs)
  {
    Sum(Pick(CostTable(f, trees), hs)) + HuffCost(Sorted(Pick(f, hs)))
  }

  lemma TotalCostPerm(f: seq<nat>, trees: seq<HTree>, a: seq<nat>, b: seq<nat>)
    requires |f| == 512 && |trees| == 512 && InTable(a) && InTable(b) && multiset(a) == multiset(b)
    ensures TotalCost(f, trees, a) == TotalCost(f, trees, b)
  {
    hide Pick, Sum, HuffCost, Sorted, CostTable;
    PickPerm(CostTable(f, trees), a, b);
    PickPerm(f, a, b);
    AscendingUnique(Sorted(Pick(f, a)), Sorted(Pick(f, b)));
  }

  /** Two minimal weights come first in sorted order. */
  lemma SortedFront(x: nat, y: nat, s: seq<nat>)
    requires x <= y && forall i :: 0 <= i < |s| ==> y <= s[i]
    ensures Sorted([x, y] + s) == [x, y] + Sorted(s)
  {
    hide Sorted;
    var t := Sorted(s);
    forall i | 0 <= i < |t| ensures y <= t[i] {
      assert t[i] in multiset(t);
      assert t[i] in s;
    }
    AscendingFront(x, y, t);
    assert multiset([x, y] + s) == multiset{x, y} + multiset(s);
    assert multiset([x, y] + t) == multiset{x, y} + multiset(t);
    AscendingUnique(Sorted([x, y] + s), [x, y] + t);
  }

  lemma AscendingFront(x: nat, y: nat, t: seq<nat>)
    requires x <= y && Ascending(t) && forall i :: 0 <= i < |t| ==> y <= t[i]
    ensures Ascending([x, y] + t)
  {
  }

  /** A merge of the two rarest roots leaves the total cost unchanged. */
  lemma MergeCost(f: seq<nat>, link: seq<int>, a: nat, b: nat, rest: seq<nat>, trees: seq<HTree>, syms: set<nat>)
    requires |rest| + 2 <= 256 && Forest(f, link, [a, b] + rest, trees, syms)
    requires a < 512 && b < 512 && InTable(rest)
    requires f[a] <= f[b] && forall i :: 0 <= i < |rest| ==> f[b] <= f[rest[i]]
    ensures
      var id := 256 + |rest| + 1;
      && InTable([id] + rest)
      && TotalCost(f[id := f[b] + f[a]], trees[id := Fork(id, trees[a], trees[b])], [id] + rest)
         == TotalCost(f, trees, [a, b] + rest)
  {
    var id := 256 + |rest| + 1;
    var f', trees' := f[id := f[b] + f[a]], trees[id := Fork(id, trees[a], trees[b])];
    hide Forest, Sum, CostTable, Pick, Sorted, Insert;
    MergeForest(f, link, a, b, rest, trees, syms);
    SpentSoFar(f, link, a, b, rest, trees, syms);
    StillToSpend(f, a, b, rest, id);
  }

  lemma StillToSpend(f: seq<nat>, a: nat, b: nat, rest: seq<nat>, id: nat)
    requires |f| == 512 && a < 512 && b < 512 && id < 512 && InTable(rest) && id !in rest
    requires f[a] <= f[b] && forall i :: 0 <= i < |rest| ==> f[b] <= f[rest[i]]
    ensures InTable([id] + rest) && InTable([a, b] + rest)
    ensures HuffCost(Sorted(Pick(f, [a, b] + rest)))
         == f[a] + f[b] + HuffCost(Sorted(Pick(f[id := f[b] + f[a]], [id] + rest)))
  {
    hide Sorted, Insert;
    var f', w, v := f[id := f[b] + f[a]], Pick(f, rest), f[b] + f[a];
    PickConcat(f, [a, b], rest);
    PickConcat(f', [id], rest);
    PickUpdate(f, rest, id, v);
    assert Pick(f, [a, b]) == [f[a], f[b]] && Pick(f', [id]) == [v];
    SortedFront(f[a], f[b], w);
    SortedCons([v] + w);
    assert ([v] + w)[1..] == w;
    assert ([f[a], f[b]] + Sorted(w))[2..] == Sorted(w);
  }

  /** The joined tree costs what its parts cost and their weights; the other roots' costs stay. */
  lemma CostAfterJoin(f: seq<nat>, link: seq<int>, a: nat, b: nat, rest: seq<nat>, trees: seq<HTree>, syms: set<nat>)
    requires |rest| + 2 <= 256 && Forest(f, link, [a, b] + rest, trees, syms)
    requires a < 512 && b < 512 && InTable(rest) && 256 + |rest| + 1 !in rest
    ensures
      var id := 256 + |rest| + 1;
      var f', trees' := f[id := f[b] + f[a]], trees[id := Fork(id, trees[a], trees[b])];
      var c, c' := CostTable(f, trees), CostTable(f', trees');
      c'[id] == c[a] + c[b] + f[a] + f[b] && Pick(c', rest) == Pick(c, rest)
  {
    var id := 256 + |rest| + 1;
    var f', trees' := f[id := f[b] + f[a]], trees[id := Fork(id, trees[a], trees[b])];
    var hs := [a, b] + rest;
    assert hs[0] == a && hs[1] == b && a in hs && b in hs;
    assert f[..256] == f'[..256];
    forall t ensures Weight(f, t) == Weight(f', t) && PathCost(f, t) == PathCost(f', t) { WeightFrame(f, f', t); }
  }

  lemma SumAfterJoin(c: seq<nat>, c': seq<nat>, a: nat, b: nat, id: nat, rest: seq<nat>)
    requires |c| == |c'| == 512 && a < 512 && b < 512 && id < 512 && InTable(rest) && Pick(c', rest) == Pick(c, rest)
    ensures InTable([id] + rest) && InTable([a, b] + rest)
    ensures Sum(Pick(c', [id] + rest)) + c[a] + c[b] == Sum(Pick(c, [a, b] + rest)) + c'[id]
  {
    InTableParts([a, b], rest);
    InTableParts([id], rest);
    PickConcat(c, [a, b], rest);
    PickConcat(c', [id], rest);
    assert Pick(c, [a, b]) == [c[a], c[b]] && Pick(c', [id]) == [c'[id]];
    SumConcat([c[a], c[b]], Pick(c, rest));
    SumConcat([c'[id]], Pick(c', rest));
    assert Sum([c[a], c[b]]) == c[a] + c[b] by { assert [c[a], c[b]][1..] == [c[b]]; }
  }

  lemma SpentSoFar(f: seq<nat>, link: seq<int>, a: nat, b: nat, rest: seq<nat>, trees: seq<HTree>, syms: set<nat>)
    requires |rest| + 2 <= 256 && Forest(f, link, [a, b] + rest, trees, syms)
    requires a < 512 && b < 512 && InTable(rest) && 256 + |rest| + 1 !in rest
    ensures
      var id := 256 + |rest| + 1;
      var f', trees' := f[id := f[b] + f[a]], trees[id := Fork(id, trees[a], trees[b])];
      && InTable([id] + rest)
      && Sum(Pick(CostTable(f', trees'), [id] + rest)) == Sum(Pick(CostTable(f, trees), [a, b] + rest)) + f[a] + f[b]
  {
    var id := 256 + |rest| + 1;
    var f', trees' := f[id := f[b] + f[a]], trees[id := Fork(id, trees[a], trees[b])];
    CostAfterJoin(f, link, a, b, rest, trees, syms);
    SumAfterJoin(CostTable(f, trees), CostTable(f', trees'), a, b, id, rest);
  }

  // ---- how deep a trie can get ----

  /** No child of `t` is heavier than `w`. */
  ghost predicate ChildrenAtMost(f: seq<nat>, t: HTree, w: nat)
    requires |f| == 512
  {
    t.Fork? ==> Weight(f, t.zero) <= w && Weight(f, t.one) <= w
  }

  /** Every node is at least as heavy as the children of its sibling. */
  ghost predicate Graded(f: seq<nat>, t: HTree)
    requires |f| == 512
  {
    t.Fork? ==>
      && Graded(f, t.zero) && Graded(f, t.one)
      && ChildrenAtMost(f, t.zero, Weight(f, t.one)) && ChildrenAtMost(f, t.one, Weight(f, t.zero))
  }

  /** Every root is at least as heavy as the children of every root. */
  ghost predicate GradedForest(f: seq<nat>, hs: seq<nat>, trees: seq<HTree>)
    requires |f| == 512 && |trees| == 512 && InTable(hs)
  {
    forall r :: r in hs ==> Graded(f, trees[r]) && forall q :: q in hs ==> ChildrenAtMost(f, trees[r], f[q])
  }

  lemma {:induction false} GradedFrame(f: seq<nat>, f': seq<nat>, t: HTree)
    requires |f| == |f'| == 512 && f[..256] == f'[..256]
    ensures Graded(f, t) == Graded(f', t) && forall w :: ChildrenAtMost(f, t, w) == ChildrenAtMost(f', t, w)
  {
    if t.Fork? {
      WeightFrame(f, f', t.zero);
      WeightFrame(f, f', t.one);
      GradedFrame(f, f', t.zero);
      GradedFrame(f, f', t.one);
    }
  }

  lemma GradedPerm(f: seq<nat>, a: seq<nat>, b: seq<nat>, trees: seq<HTree>)
    requires |f| == 512 && |trees| == 512 && InTable(a) && InTable(b) && multiset(a) == multiset(b)
    requires GradedForest(f, a, trees)
    ensures GradedForest(f, b, trees)
  {
    assert forall r :: r in b ==> r in multiset(b);
    assert forall r :: r in b ==> r in a;
  }

  /** Merging the two rarest roots keeps the grading. */
  lemma MergeGraded(f: seq<nat>, a: nat, b: nat, rest: seq<nat>, id: nat, trees: seq<HTree>)
    requires |f| == 512 && |trees| == 512 && InTable([a, b] + rest) && 256 <= id < 512 && id !in rest
    requires a < 512 && b < 512 && f[a] == Weight(f, trees[a]) && f[b] == Weight(f, trees[b])
    requires GradedForest(f, [a, b] + rest, trees)
    requires f[a] <= f[b] && forall r :: r in rest ==> r < 512 && f[b] <= f[r]
    ensures InTable([id] + rest)
    ensures GradedForest(f[id := f[b] + f[a]], [id] + rest, trees[id := Fork(id, trees[a], trees[b])])
  {
    var f', t := f[id := f[b] + f[a]], Fork(id, trees[a], trees[b]);
    var trees', hs, hs' := trees[id := t], [a, b] + rest, [id] + rest;
    InTableParts([a, b], rest);
    InTableParts([id], rest);
    assert f[..256] == f'[..256];
    assert hs[0] == a && hs[1] == b && a in hs && b in hs;
    WeightFrame(f, f', trees[a]);
    WeightFrame(f, f', trees[b]);
    GradedFrame(f, f', t);
    hide Graded, Weight;
    assert Graded(f, t) by { GradedFork(f, id, trees[a], trees[b]); }
    forall r | r in hs'
      ensures Graded(f', trees'[r]) && forall q :: q in hs' ==> ChildrenAtMost(f', trees'[r], f'[q])
    {
      if r != id {
        assert r in hs;
        GradedFrame(f, f', trees[r]);
        forall q | q in hs' ensures ChildrenAtMost(f', trees'[r], f'[q]) {
          assert q != id ==> q in hs;
          assert ChildrenAtMost(f, trees[r], f[a]);
        }
      } else {
        forall q | q in hs' ensures ChildrenAtMost(f', t, f'[q]) {
          assert q != id ==> q in rest;
        }
      }
    }
  }

  lemma GradedFork(f: seq<nat>, id: nat, ta: HTree, tb: HTree)
    requires |f| == 512 && Graded(f, ta) && Graded(f, tb)
    requires ChildrenAtMost(f, ta, Weight(f, tb)) && ChildrenAtMost(f, tb, Weight(f, ta))
    ensures Graded(f, Fork(id, ta, tb))
  {
  }

  function Fib(n: nat): nat { if n < 2 then n else Fib(n - 1) + Fib(n - 2) }

  ghost function Depth(t: HTree): nat {
    match t
    case Leaf(_) => 0
    case Fork(_, z, o) => 1 + (if Depth(z) > Depth(o) then Depth(z) else Depth(o))
  }

  ghost predicate AllOccur(f: seq<nat>, t: HTree)
    requires |f| == 512
  {
    match t
    case Leaf(s) => s < 256 && f[s] > 0
    case Fork(_, z, o) => AllOccur(f, z) && AllOccur(f, o)
  }

  ghost function Deeper(t: HTree): HTree
    requires t.Fork?
  {
    if Depth(t.zero) > Depth(t.one) then t.zero else t.one
  }

  lemma FibSteps(d: nat)
    ensures Fib(2) == 1 && Fib(3) == 2
    ensures d >= 2 ==> Fib(d + 2) == Fib(d + 1) + Fib(d)
  {
  }

  /** The two children, the deeper first. */
  lemma DeeperSide(f: seq<nat>, t: HTree) returns (y: HTree)
    requires |f| == 512 && t.Fork? && Graded(f, t) && AllOccur(f, t)
    ensures
      var z := Deeper(t);
      && z < t && y < t && Depth(y) <= Depth(z) == Depth(t) - 1 && Weight(f, t) == Weight(f, z) + Weight(f, y)
      && Graded(f, z) && Graded(f, y) && AllOccur(f, z) && AllOccur(f, y) && ChildrenAtMost(f, z, Weight(f, y))
  {
    y := if Deeper(t) == t.zero then t.one else t.zero;
  }

  lemma LeafWeighs(f: seq<nat>, t: HTree)
    requires |f| == 512 && t.Leaf? && AllOccur(f, t)
    ensures Weight(f, t) >= 1 && Depth(t) == 0
  {
  }

  /** A graded trie of depth d weighs at least the Fibonacci number d+2. */
  lemma {:induction false} DeepIsHeavy(f: seq<nat>, t: HTree)
    requires |f| == 512 && Graded(f, t) && AllOccur(f, t)
    ensures Weight(f, t) >= Fib(Depth(t) + 2)
    decreases t
  {
    hide Fib, Graded, AllOccur;
    FibSteps(Depth(t));
    if t.Leaf? {
      LeafWeighs(f, t);
    } else {
      var z := Deeper(t);
      var y := DeeperSide(f, t);
      DeepIsHeavy(f, z);
      DeepIsHeavy(f, y);
      if z.Fork? {
        var y' := DeeperSide(f, z);
        DeepIsHeavy(f, Deeper(z));
      }
    }
  }
}
