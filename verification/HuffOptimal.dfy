/** Why Huffman's greedy merging is optimal, for weights and code lengths alone: no code whose
    lengths satisfy Kraft's inequality, hence no prefix code, has a smaller weighted length. */
module HuffOptimal {
  import opened Arith

  // ---- sums ----

  function Sum(s: seq<nat>): nat {
    if s == [] then 0 else s[0] + Sum(s[1..])
  }

  lemma {:induction false} SumConcat(a: seq<nat>, b: seq<nat>)
    ensures Sum(a + b) == Sum(a) + Sum(b)
  {
    if a == [] {
      assert a + b == b;
    } else {
      assert (a + b)[1..] == a[1..] + b;
      SumConcat(a[1..], b);
    }
  }

  lemma SumSplit(s: seq<nat>, i: nat)
    requires i < |s|
    ensures Sum(s) == Sum(s[..i]) + s[i] + Sum(s[i + 1..])
  {
    assert s == s[..i] + s[i..];
    SumConcat(s[..i], s[i..]);
  }

  lemma SumUpdate(s: seq<nat>, i: nat, v: nat)
    requires i < |s|
    ensures Sum(s[i := v]) + s[i] == Sum(s) + v
  {
    SumSplit(s, i);
    SumSplit(s[i := v], i);
    assert s[i := v][..i] == s[..i] && s[i := v][i + 1..] == s[i + 1..];
  }

  function InsertAt<A>(s: seq<A>, p: nat, v: A): seq<A>
    requires p <= |s|
  {
    s[..p] + [v] + s[p..]
  }

  lemma SumInsert(s: seq<nat>, p: nat, v: nat)
    requires p <= |s|
    ensures Sum(InsertAt(s, p, v)) == Sum(s) + v
  {
    assert s == s[..p] + s[p..];
    SumConcat(s[..p], s[p..]);
    SumConcat(s[..p] + [v], s[p..]);
    SumConcat(s[..p], [v]);
  }

  // ---- cost and Kraft's inequality ----

  /** Total number of bits: weight times length. */
  function Products(ws: seq<nat>, ls: seq<nat>): seq<nat>
    requires |ws| == |ls|
  {
    seq(|ws|, i requires 0 <= i < |ws| => ws[i] * ls[i])
  }

  function Cost(ws: seq<nat>, ls: seq<nat>): nat
    requires |ws| == |ls|
  {
    Sum(Products(ws, ls))
  }

  predicate Below(ls: seq<nat>, m: nat) { forall i :: 0 <= i < |ls| ==> ls[i] <= m }

  function Slots(ls: seq<nat>, m: nat): seq<nat>
    requires Below(ls, m)
  {
    seq(|ls|, i requires 0 <= i < |ls| => Pow2(m - ls[i]))
  }

  /** Kraft's inequality, scaled by 2^m. */
  predicate Kraft(ls: seq<nat>, m: nat) {
    Below(ls, m) && Sum(Slots(ls, m)) <= Pow2(m)
  }

  lemma CostUpdate(ws: seq<nat>, ls: seq<nat>, i: nat, v: nat)
    requires |ws| == |ls| && i < |ls|
    ensures Cost(ws, ls[i := v]) + ws[i] * ls[i] == Cost(ws, ls) + ws[i] * v
  {
    SumUpdate(Products(ws, ls), i, ws[i] * v);
    assert Products(ws, ls)[i := ws[i] * v] == Products(ws, ls[i := v]);
  }

  lemma SlotsUpdate(ls: seq<nat>, m: nat, i: nat, v: nat)
    requires Below(ls, m) && i < |ls| && v <= m
    ensures Below(ls[i := v], m)
    ensures Sum(Slots(ls[i := v], m)) + Pow2(m - ls[i]) == Sum(Slots(ls, m)) + Pow2(m - v)
  {
    SumUpdate(Slots(ls, m), i, Pow2(m - v));
    assert Slots(ls, m)[i := Pow2(m - v)] == Slots(ls[i := v], m);
  }

  lemma CostInsert(ws: seq<nat>, ls: seq<nat>, p: nat, w: nat, l: nat)
    requires |ws| == |ls| && p <= |ws|
    ensures Cost(InsertAt(ws, p, w), InsertAt(ls, p, l)) == Cost(ws, ls) + w * l
  {
    SumInsert(Products(ws, ls), p, w * l);
    assert Products(InsertAt(ws, p, w), InsertAt(ls, p, l)) == InsertAt(Products(ws, ls), p, w * l);
  }

  lemma SlotsInsert(ls: seq<nat>, m: nat, p: nat, l: nat)
    requires Below(ls, m) && p <= |ls| && l <= m
    ensures Below(InsertAt(ls, p, l), m)
    ensures Sum(Slots(InsertAt(ls, p, l), m)) == Sum(Slots(ls, m)) + Pow2(m - l)
  {
    SumInsert(Slots(ls, m), p, Pow2(m - l));
    assert Slots(InsertAt(ls, p, l), m) == InsertAt(Slots(ls, m), p, Pow2(m - l));
  }

  // ---- the greedy cost ----

  predicate Ascending(s: seq<nat>) { forall i, j :: 0 <= i < j < |s| ==> s[i] <= s[j] }

  /** Where `v` goes in an ascending sequence. */
  function Place(s: seq<nat>, v: nat): (p: nat)
    ensures p <= |s|
    ensures forall i :: 0 <= i < p ==> s[i] <= v
    ensures Ascending(s) ==> forall i :: p <= i < |s| ==> v <= s[i]
  {
    if s == [] || v <= s[0] then 0 else 1 + Place(s[1..], v)
  }

  function Insert(s: seq<nat>, v: nat): seq<nat> { InsertAt(s, Place(s, v), v) }

  lemma InsertSize(s: seq<nat>, p: nat, v: nat)
    requires p <= |s|
    ensures |InsertAt(s, p, v)| == |s| + 1 && multiset(InsertAt(s, p, v)) == multiset(s) + multiset{v}
  {
    assert s == s[..p] + s[p..];
  }

  lemma InsertEntry(s: seq<nat>, p: nat, v: nat, i: nat)
    requires p <= |s| && i <= |s|
    ensures |InsertAt(s, p, v)| == |s| + 1
    ensures InsertAt(s, p, v)[i] == if i < p then s[i] else if i == p then v else s[i - 1]
  {
  }

  lemma InsertAscending(s: seq<nat>, v: nat)
    requires Ascending(s)
    ensures Ascending(Insert(s, v)) && |Insert(s, v)| == |s| + 1
    ensures multiset(Insert(s, v)) == multiset(s) + multiset{v}
  {
    hide Place, InsertAt;
    var p, t := Place(s, v), Insert(s, v);
    InsertSize(s, p, v);
    forall i, j | 0 <= i < j < |t| ensures t[i] <= t[j] {
      InsertEntry(s, p, v, i);
      InsertEntry(s, p, v, j);
    }
  }

  /** Merge the two smallest weights until one is left; the cost is the sum of all merged weights. */
  function HuffCost(ws: seq<nat>): nat
    decreases |ws|
  {
    if |ws| <= 1 then 0
    else ws[0] + ws[1] + HuffCost(Insert(ws[2..], ws[0] + ws[1]))
  }

  // ---- the exchange argument ----

  function MaxLen(ls: seq<nat>): (m: nat)
    requires ls != []
    ensures Below(ls, m) && m in ls
  {
    if |ls| == 1 then ls[0]
    else
      var r := MaxLen(ls[1..]);
      assert forall i :: 1 <= i < |ls| ==> ls[i] == ls[1..][i - 1];
      if r >= ls[0] then r else ls[0]
  }

  /** Kraft's inequality does not depend on the scale. */
  lemma {:induction false} SlotsScale(ls: seq<nat>, m: nat, k: nat)
    requires Below(ls, m)
    ensures Below(ls, m + k) && Sum(Slots(ls, m + k)) == Pow2(k) * Sum(Slots(ls, m))
  {
    if ls != [] {
      SlotsScale(ls[1..], m, k);
      assert Slots(ls, m)[1..] == Slots(ls[1..], m);
      assert Slots(ls, m + k)[1..] == Slots(ls[1..], m + k);
      Pow2Add(k, m - ls[0]);
      assert k + (m - ls[0]) == m + k - ls[0];
      Distribute(Pow2(k), Pow2(m - ls[0]), Sum(Slots(ls[1..], m)));
    }
  }

  lemma Distribute(k: nat, a: nat, b: nat)
    ensures k * (a + b) == k * a + k * b
  {
  }

  lemma CancelLe(k: nat, x: nat, y: nat)
    requires k > 0 && k * x <= k * y
    ensures x <= y
  {
    assert x > y ==> k * x >= k * (y + 1) == k * y + k;
  }

  lemma KraftScale(ls: seq<nat>, m: nat, n: nat)
    requires Kraft(ls, n) && Below(ls, m) && m <= n
    ensures Kraft(ls, m)
  {
    SlotsScale(ls, m, n - m);
    Pow2Add(n - m, m);
    CancelLe(Pow2(n - m), Sum(Slots(ls, m)), Pow2(m));
  }

  /** The length m occurs at position i and nowhere else. */
  predicate OnlyAt(ls: seq<nat>, m: nat, i: int) {
    0 <= i < |ls| && ls[i] == m && forall j :: 0 <= j < |ls| && j != i ==> ls[j] != m
  }

  /** If no length but that at `i` equals m > 0, the scaled Kraft sum is odd. */
  lemma {:induction false} SlotsParity(ls: seq<nat>, m: nat)
    requires m > 0 && Below(ls, m)
    ensures (forall i :: 0 <= i < |ls| ==> ls[i] != m) ==> Sum(Slots(ls, m)) % 2 == 0
    ensures forall i :: OnlyAt(ls, m, i) ==> Sum(Slots(ls, m)) % 2 == 1
  {
    if ls != [] {
      var tl := ls[1..];
      SlotsParity(tl, m);
      assert Slots(ls, m)[1..] == Slots(tl, m);
      assert ls[0] != m ==> Pow2(m - ls[0]) == 2 * Pow2(m - ls[0] - 1);
      assert forall j :: 0 <= j < |tl| ==> tl[j] == ls[j + 1];
      forall i | OnlyAt(ls, m, i)
        ensures Sum(Slots(ls, m)) % 2 == 1
      {
        if i == 0 {
          assert forall j :: 0 <= j < |tl| ==> tl[j] != m;
        } else {
          assert OnlyAt(tl, m, i - 1);
        }
      }
    }
  }

  /** Giving the longer of two lengths to the smaller weight does not cost more. */
  lemma SwapCheaper(ws: seq<nat>, ls: seq<nat>, m: nat, i: nat, j: nat) returns (r: seq<nat>)
    requires |ws| == |ls| && i <= j < |ls| && Kraft(ls, m)
    requires ws[i] <= ws[j] && ls[i] <= ls[j]
    ensures r == ls[i := ls[j]][j := ls[i]]
    ensures Kraft(r, m) && Cost(ws, r) <= Cost(ws, ls)
  {
    hide Sum, Slots, Products, Pow2;
    r := ls[i := ls[j]];
    CostUpdate(ws, ls, i, ls[j]);
    SlotsUpdate(ls, m, i, ls[j]);
    CostUpdate(ws, r, j, ls[i]);
    SlotsUpdate(r, m, j, ls[i]);
    if i == j {
      assert r[j := ls[i]] == ls;
    } else {
      Exchange(ws[i], ws[j], ls[i], ls[j]);
    }
    r := r[j := ls[i]];
  }

  lemma Exchange(a: nat, b: nat, x: nat, y: nat)
    requires a <= b && x <= y
    ensures a * y + b * x <= a * x + b * y
  {
    assert (b - a) * (y - x) >= 0;
  }

  /** Two lengths m for the two smallest weights: the pair acts as one weight of length m-1. */
  lemma MergePair(ws: seq<nat>, ls: seq<nat>, m: nat) returns (ws': seq<nat>, ls': seq<nat>)
    requires |ws| == |ls| >= 2 && Ascending(ws) && m > 0 && Kraft(ls, m) && ls[0] == m && ls[1] == m
    ensures ws' == Insert(ws[2..], ws[0] + ws[1]) && |ws'| == |ls'| && Ascending(ws')
    ensures Kraft(ls', m) && Cost(ws', ls') + ws[0] + ws[1] == Cost(ws, ls)
  {
    hide Sum, Slots, Products, Place, Ascending, Below;
    var p := Place(ws[2..], ws[0] + ws[1]);
    DropPair(ws, ls, m);
    InsertAscending(ws[2..], ws[0] + ws[1]);
    ws', ls' := InsertAt(ws[2..], p, ws[0] + ws[1]), InsertAt(ls[2..], p, m - 1);
    CostInsert(ws[2..], ls[2..], p, ws[0] + ws[1], m - 1);
    SlotsInsert(ls[2..], m, p, m - 1);
    assert Pow2(m - (m - 1)) == 2 && Pow2(m - m) == 1;
    assert (ws[0] + ws[1]) * (m - 1) + ws[0] + ws[1] == ws[0] * m + ws[1] * m;
  }

  lemma DropPair(ws: seq<nat>, ls: seq<nat>, m: nat)
    requires |ws| == |ls| >= 2 && Ascending(ws) && Below(ls, m) && ls[0] == m && ls[1] == m
    ensures Ascending(ws[2..]) && Below(ls[2..], m)
    ensures Cost(ws, ls) == Cost(ws[2..], ls[2..]) + ws[0] * m + ws[1] * m
    ensures Sum(Slots(ls, m)) == Sum(Slots(ls[2..], m)) + 2 * Pow2(m - m)
  {
    hide Sum, Slots, Products;
    CostInsert(ws[2..], ls[2..], 0, ws[1], m);
    SlotsInsert(ls[2..], m, 0, m);
    assert InsertAt(ws[2..], 0, ws[1]) == ws[1..] && InsertAt(ls[2..], 0, m) == ls[1..];
    CostInsert(ws[1..], ls[1..], 0, ws[0], m);
    SlotsInsert(ls[1..], m, 0, m);
    assert InsertAt(ws[1..], 0, ws[0]) == ws && InsertAt(ls[1..], 0, m) == ls;
  }

  /** Lowering one over-long length keeps Kraft's inequality. */
  lemma ShortenOnly(ws: seq<nat>, ls: seq<nat>, m: nat, i: nat)
    requires |ws| == |ls| && m > 0 && Kraft(ls, m) && OnlyAt(ls, m, i)
    ensures Kraft(ls[i := m - 1], m) && Cost(ws, ls[i := m - 1]) <= Cost(ws, ls)
    ensures Sum(ls[i := m - 1]) < Sum(ls)
  {
    SlotsParity(ls, m);
    assert Pow2(m) % 2 == 0;
    hide Sum, Slots, Products;
    SlotsUpdate(ls, m, i, m - 1);
    CostUpdate(ws, ls, i, m - 1);
    assert Pow2(m - (m - 1)) == 2 && Pow2(m - m) == 1;
    assert ws[i] * (m - 1) <= ws[i] * m;
    SumUpdate(ls, i, m - 1);
  }

  /** Two weights cannot both have length 0. */
  lemma MaxLenPositive(ls: seq<nat>, n: nat)
    requires |ls| >= 2 && Kraft(ls, n)
    ensures MaxLen(ls) > 0
  {
    if MaxLen(ls) == 0 {
      KraftScale(ls, 0, n);
      var s := Slots(ls, 0);
      assert Sum(s) == s[0] + (s[1] + Sum(s[1..][1..]));
    }
  }

  /** Huffman's greedy cost is a lower bound for every length assignment that satisfies Kraft. */
  lemma {:induction false} GreedyIsOptimal(ws: seq<nat>, ls: seq<nat>, n: nat)
    requires |ws| == |ls| && Ascending(ws) && Kraft(ls, n)
    ensures HuffCost(ws) <= Cost(ws, ls)
    decreases |ws|, Sum(ls)
  {
    if |ws| >= 2 {
      hide Sum, Slots, Products;
      var m := MaxLen(ls);
      MaxLenPositive(ls, n);
      assert m <= n;
      KraftScale(ls, m, n);
      var i :| 0 <= i < |ls| && ls[i] == m;
      if OnlyAt(ls, m, i) {
        ShortenOnly(ws, ls, m, i);
        GreedyIsOptimal(ws, ls[i := m - 1], m);
      } else {
        var j :| 0 <= j < |ls| && j != i && ls[j] == m;
        var a, b := if i < j then i else j, if i < j then j else i;
        var l1 := SwapCheaper(ws, ls, m, 0, a);
        assert l1[b] == m && l1[0] == m;
        var l2 := SwapCheaper(ws, l1, m, 1, b);
        assert l2[0] == m && l2[1] == m;
        var ws', ls' := MergePair(ws, l2, m);
        GreedyIsOptimal(ws', ls', m);
      }
    }
  }
}
