/** Counting, heap building and merging in huffbench's `compdecomp`: from a byte buffer to a trie. */
module HuffBuild {
  import opened Bits
  import opened HuffTree
  import opened HuffOptimal
  import opened HuffPrefix
  import opened HuffHeap
  import opened HuffForest

  /** How often `c` occurs. */
  function Count(data: seq<byte>, c: nat): nat {
    if data == [] then 0 else Count(data[..|data| - 1], c) + (if data[|data| - 1] == c then 1 else 0)
  }

  lemma {:induction false} CountPositive(data: seq<byte>, c: byte)
    ensures Count(data, c) > 0 <==> c in data
  {
    if data != [] {
      CountPositive(data[..|data| - 1], c);
      assert data == data[..|data| - 1] + [data[|data| - 1]];
    }
  }

  /** Count the bytes: entry c of the table is the number of c's. */
  method CountFrequencies(data: array<byte>) returns (freq: array<nat>)
    ensures fresh(freq) && freq.Length == 512
    ensures forall c :: 0 <= c < 256 ==> freq[c] == Count(data[..], c)
    ensures forall c :: 256 <= c < 512 ==> freq[c] == 0
  {
    freq := new nat[512](_ => 0);
    var i := 0;
    while i < data.Length
      invariant 0 <= i <= data.Length
      invariant forall c :: 0 <= c < 256 ==> freq[c] == Count(data[..i], c)
      invariant forall c :: 256 <= c < 512 ==> freq[c] == 0
    {
      assert data[..i + 1][..i] == data[..i];
      freq[data[i]] := freq[data[i]] + 1;
      i := i + 1;
    }
    assert data[..] == data[..i];
  }

  /** The occurring byte values below `m`, ascending. */
  function Occurring(f: seq<nat>, m: nat): (r: seq<nat>)
    requires m <= |f|
    ensures |r| <= m && forall i :: 0 <= i < |r| ==> r[i] < m && f[r[i]] > 0
  {
    if m == 0 then []
    else if f[m - 1] > 0 then Occurring(f, m - 1) + [m - 1] else Occurring(f, m - 1)
  }

  lemma {:induction false} OccurringAll(f: seq<nat>, m: nat)
    requires m <= |f|
    ensures forall c: nat :: c in Occurring(f, m) <==> c < m && f[c] > 0
  {
    if m > 0 { OccurringAll(f, m - 1); }
  }

  lemma {:induction false} OccurringOnce(f: seq<nat>, m: nat)
    requires m <= |f|
    ensures forall c :: multiset(Occurring(f, m))[c] <= 1
  {
    if m > 0 {
      OccurringOnce(f, m - 1);
      var r := Occurring(f, m - 1);
      assert multiset(r + [m - 1]) == multiset(r) + multiset{m - 1};
      assert m - 1 !in multiset(r) by { assert m - 1 !in r; }
    }
  }

  method CollectSymbols(freq: array<nat>, heap: array<nat>) returns (n: nat)
    requires freq != heap && freq.Length == 512 && heap.Length == 256 && InTable(heap[..])
    modifies heap
    ensures n <= 256 && heap[..n] == Occurring(freq[..], 256) && InTable(heap[..])
  {
    n := 0;
    var i := 0;
    while i < 256
      invariant 0 <= i <= 256 && n <= i && heap[..n] == Occurring(freq[..], i) && InTable(heap[..])
    {
      if freq[i] != 0 {
        heap[n] := i;
        n := n + 1;
      }
      i := i + 1;
    }
  }

  method Heapify(freq: array<nat>, heap: array<nat>, n: nat)
    requires freq != heap && freq.Length == 512 && heap.Length == 256 && n <= 256 && InTable(heap[..])
    modifies heap
    ensures InTable(heap[..]) && HeapFrom(freq[..], heap[..], n, 1)
    ensures multiset(heap[..n]) == multiset(old(heap[..n]))
  {
    var i := n;
    while i > 0
      invariant 0 <= i <= n && InTable(heap[..]) && HeapFrom(freq[..], heap[..], n, i + 1)
      invariant multiset(heap[..n]) == multiset(old(heap[..n]))
    {
      HeapAdjust(freq, heap, n, i);
      i := i - 1;
    }
  }

  // ---- merging ----

  /** Before any merge every occurring byte value is a tree of its own. */
  lemma Seedlings(f: seq<nat>, link: seq<int>, hs: seq<nat>) returns (trees: seq<HTree>)
    requires |f| == 512 && |link| == 512 && multiset(hs) == multiset(Occurring(f, 256))
    ensures Forest(f, link, hs, trees, set c | c in Occurring(f, 256))
    ensures TotalCost(f, trees, hs) == HuffCost(Sorted(Pick(f, Occurring(f, 256))))
    ensures GradedForest(f, hs, trees)
    ensures forall r :: 0 <= r < 512 ==> trees[r] == Leaf(r)
  {
    trees := seq(512, r requires 0 <= r < 512 => Leaf(r));
    var occ := Occurring(f, 256);
    SeedForest(f, link, occ, trees);
    ForestPerm(f, link, occ, hs, trees, set c | c in occ);
    TotalCostPerm(f, trees, occ, hs);
    NothingSpent(f, trees, occ);
  }

  lemma SeedForest(f: seq<nat>, link: seq<int>, occ: seq<nat>, trees: seq<HTree>)
    requires |f| == 512 && |link| == 512 && |trees| == 512 && occ == Occurring(f, 256)
    requires forall r :: 0 <= r < 512 ==> trees[r] == Leaf(r)
    ensures Forest(f, link, occ, trees, set c | c in occ)
  {
    hide Planted, Covers, Ids, Occurring;
    OccurringAll(f, 256);
    OccurringOnce(f, 256);
    forall r | r in occ
      ensures Planted(f, link, r, trees[r], |occ|) && Symbols(trees[r]) == [r] && Ids(trees[r]) == {r}
    {
      SeedTree(f, link, r, |occ|);
    }
    SeedCovers(occ, trees);
  }

  lemma SeedCovers(occ: seq<nat>, trees: seq<HTree>)
    requires |trees| == 512 && InTable(occ) && forall r :: 0 <= r < 512 ==> trees[r] == Leaf(r)
    ensures Covers(occ, trees, set c | c in occ)
  {
    forall s | s in occ ensures exists r :: r in occ && s in Symbols(trees[r]) {
      assert s in Symbols(trees[s]);
    }
  }

  lemma SeedTree(f: seq<nat>, link: seq<int>, r: nat, n: nat)
    requires |f| == 512 && |link| == 512 && r < 256
    ensures Planted(f, link, r, Leaf(r), n) && Symbols(Leaf(r)) == [r] && Ids(Leaf(r)) == {r}
  {
  }

  lemma {:induction false} NothingSpent(f: seq<nat>, trees: seq<HTree>, hs: seq<nat>)
    requires |f| == 512 && |trees| == 512 && InTable(hs) && forall r :: 0 <= r < 512 ==> trees[r].Leaf?
    ensures Sum(Pick(CostTable(f, trees), hs)) == 0
  {
    if hs != [] {
      var c := CostTable(f, trees);
      assert Pick(c, hs)[1..] == Pick(c, hs[1..]);
      NothingSpent(f, trees, hs[1..]);
    }
  }

  /** The state of the merge loop: a heap over a forest whose total cost is the greedy cost. */
  ghost predicate Merging(f: seq<nat>, link: seq<int>, h: seq<nat>, n: nat, trees: seq<HTree>, syms: set<nat>,
                          cost: nat) {
    && |f| == 512 && |link| == 512 && |trees| == 512 && |h| == 256 && 1 <= n <= 256 && InTable(h)
    && HeapFrom(f, h, n, 1) && Forest(f, link, h[..n], trees, syms) && TotalCost(f, trees, h[..n]) == cost
    && GradedForest(f, h[..n], trees)
  }

  /** After the root was taken and the last entry put in its place, only the root may be out of order. */
  lemma TakeRoot(f: seq<nat>, h: seq<nat>, n: nat)
    requires |f| == 512 && 2 <= n <= |h| && InTable(h) && HeapFrom(f, h, n, 1)
    ensures
      var h1 := h[0 := h[n - 1]];
      && InTable(h1) && HeapFrom(f, h1, n - 1, 2)
      && multiset(h[..n]) == multiset{h[0]} + multiset(h1[..n - 1])
    ensures forall i :: 0 <= i < n ==> f[h[0]] <= f[h[i]]
  {
    var h1 := h[0 := h[n - 1]];
    forall i | 0 <= i < n ensures f[h[0]] <= f[h[i]] { RootIsMin(f, h, n, i + 1); }
    var mid, last := h[1..n - 1], h[n - 1];
    assert h1[..n - 1] == [last] + mid;
    assert h[..n] == [h[0]] + mid + [last];
    assert multiset([last] + mid) == multiset{last} + multiset(mid);
    assert multiset([h[0]] + mid + [last]) == multiset{h[0]} + multiset(mid) + multiset{last};
  }

  /** Replacing the root of a heap leaves only the root possibly out of order. */
  lemma PutRoot(f: seq<nat>, h: seq<nat>, n: nat, id: nat, v: nat)
    requires |f| == 512 && 1 <= n <= |h| && InTable(h) && HeapFrom(f, h, n, 1) && id < 512
    requires forall i :: 1 <= i < n ==> h[i] != id
    ensures InTable(h[0 := id]) && HeapFrom(f[id := v], h[0 := id], n, 2)
  {
  }

  /** The two rarest roots, in the order in which the loop takes them. */
  lemma TwoRarest(f: seq<nat>, link: seq<int>, h0: seq<nat>, n: nat, h2: seq<nat>,
                  trees: seq<HTree>, syms: set<nat>, cost: nat)
    requires n >= 2 && Merging(f, link, h0, n, trees, syms, cost)
    requires |h2| == 256 && InTable(h2) && HeapFrom(f, h2, n - 1, 1)
    requires multiset(h2[..n - 1]) == multiset(h0[0 := h0[n - 1]][..n - 1])
    ensures
      var a, b, rest := h0[0], h2[0], h2[1..n - 1];
      && Forest(f, link, [a, b] + rest, trees, syms) && TotalCost(f, trees, [a, b] + rest) == cost
      && GradedForest(f, [a, b] + rest, trees)
      && f[a] <= f[b] && (forall i :: 0 <= i < |rest| ==> f[b] <= f[rest[i]]) && InTable(rest)
  {
    hide GradedForest, TotalCost;
    var a, b, rest := h0[0], h2[0], h2[1..n - 1];
    TakeRoot(f, h0, n);
    assert h2[..n - 1] == [b] + rest;
    assert [a, b] + rest == [a] + h2[..n - 1];
    assert multiset([a] + h2[..n - 1]) == multiset{a} + multiset(h2[..n - 1]);
    ForestPerm(f, link, h0[..n], [a, b] + rest, trees, syms);
    TotalCostPerm(f, trees, h0[..n], [a, b] + rest);
    GradedPerm(f, h0[..n], [a, b] + rest, trees);
    assert b in multiset(h0[..n]) by { assert b in multiset(h2[..n - 1]); }
    assert b in h0[..n];
    forall i | 0 <= i < |rest| ensures f[b] <= f[rest[i]] { RootIsMin(f, h2, n - 1, i + 2); }
  }

  /** One turn of the merge loop, on the array contents. */
  lemma MergeTurn(f: seq<nat>, link: seq<int>, h2: seq<nat>, a: nat, n: nat, h4: seq<nat>,
                  trees: seq<HTree>, syms: set<nat>, cost: nat)
    requires 2 <= n <= 256 && |h2| == 256 && |h4| == 256 && InTable(h2) && InTable(h4) && a < 512 && |f| == 512
    requires
      var b, rest := h2[0], h2[1..n - 1];
      && Forest(f, link, [a, b] + rest, trees, syms) && TotalCost(f, trees, [a, b] + rest) == cost
      && GradedForest(f, [a, b] + rest, trees)
      && f[a] <= f[b] && (forall i :: 0 <= i < |rest| ==> f[b] <= f[rest[i]]) && InTable(rest)
    requires multiset(h4[..n - 1]) == multiset(h2[0 := 256 + n - 1][..n - 1])
    requires HeapFrom(f[256 + n - 1 := f[h2[0]] + f[a]], h4, n - 1, 1)
    ensures |trees| == 512 && |link| == 512
    ensures
      var id, b := 256 + n - 1, h2[0];
      Merging(f[id := f[b] + f[a]], link[a := id][b := 0 - id], h4, n - 1, trees[id := Fork(id, trees[a], trees[b])],
              syms, cost)
  {
    hide Forest, TotalCost, HeapFrom, GradedForest;
    var id, b, rest := 256 + n - 1, h2[0], h2[1..n - 1];
    ForestSizes(f, link, [a, b] + rest, trees, syms);
    var f', link', trees' := f[id := f[b] + f[a]], link[a := id][b := 0 - id],
      trees[id := Fork(id, trees[a], trees[b])];
    MergeForest(f, link, a, b, rest, trees, syms);
    MergeCost(f, link, a, b, rest, trees, syms);
    assert h2[0 := id][..n - 1] == [id] + rest;
    ForestPerm(f', link', [id] + rest, h4[..n - 1], trees', syms);
    TotalCostPerm(f', trees', [id] + rest, h4[..n - 1]);
    RootWeights(f, link, a, b, rest, trees, syms);
    MergeGraded(f, a, b, rest, id, trees);
    GradedPerm(f', [id] + rest, h4[..n - 1], trees');
  }

  lemma RootWeights(f: seq<nat>, link: seq<int>, a: nat, b: nat, rest: seq<nat>, trees: seq<HTree>, syms: set<nat>)
    requires |f| == 512 && Forest(f, link, [a, b] + rest, trees, syms)
    ensures a < 512 && b < 512 && f[a] == Weight(f, trees[a]) && f[b] == Weight(f, trees[b])
  {
    var hs := [a, b] + rest;
    assert hs[0] == a && hs[1] == b && a in hs && b in hs;
  }

  lemma ForestSizes(f: seq<nat>, link: seq<int>, hs: seq<nat>, trees: seq<HTree>, syms: set<nat>)
    requires Forest(f, link, hs, trees, syms)
    ensures |link| == 512 && |trees| == 512 && InTable(hs)
  {
  }

  /** What the finished trie is: one tree over the occurring bytes, recorded in `link`, whose
      weighted path length is the greedy cost of the frequencies. */
  ghost predicate Trie(t: HTree, f: seq<nat>, link: seq<int>, occ: seq<nat>) {
    && |f| == 512 && |link| == 512 && InTable(occ) && WellNumbered(t) && Linked(link, t)
    && (forall s :: s in Symbols(t) <==> s in occ)
    && PathCost(f, t) == HuffCost(Sorted(Pick(f, occ))) && Graded(f, t)
    && link[RootId(t)] == 0 && RootId(t) < 512
  }

  /** Takes the rarest root out of the heap. */
  method TakeRarest(freq: array<nat>, heap: array<nat>, n: nat) returns (temp: nat)
    requires freq != heap && freq.Length == 512 && heap.Length == 256 && 1 <= n < 256 && InTable(heap[..])
    requires InTable(heap[..][0 := heap[n]]) && HeapFrom(freq[..], heap[..][0 := heap[n]], n, 2)
    modifies heap
    ensures temp == old(heap[0]) && InTable(heap[..]) && HeapFrom(freq[..], heap[..], n, 1)
    ensures multiset(heap[..n]) == multiset(old(heap[..])[0 := old(heap[n])][..n])
  {
    hide HeapFrom;
    ghost var h1, f := heap[..][0 := heap[n]], freq[..];
    temp := heap[0];
    heap[0] := heap[n];
    assert heap[..] == h1 && freq[..] == f;
    HeapAdjust(freq, heap, n, 1);
    assert freq[..] == f;
  }

  /** The body of the merge loop, `n` already decremented. */
  method MergeOnce(freq: array<nat>, heap: array<nat>, link: array<int>, n: nat,
                   ghost trees: seq<HTree>, ghost syms: set<nat>, ghost cost: nat)
    returns (ghost trees': seq<HTree>)
    requires freq != heap && freq.Length == 512 && heap.Length == 256 && link.Length == 512
    requires 1 <= n < 256 && InTable(heap[..])
    requires Merging(freq[..], link[..], heap[..], n + 1, trees, syms, cost)
    modifies freq, heap, link
    ensures InTable(heap[..]) && freq[..256] == old(freq[..256]) && 256 + n in heap[..n]
    ensures Merging(freq[..], link[..], heap[..], n, trees', syms, cost)
  {
    hide Merging, HeapFrom, Forest, TotalCost, GradedForest;
    ghost var h0, f, l := heap[..], freq[..], link[..];
    MergingHeap(f, l, h0, n + 1, trees, syms, cost);
    var temp := TakeRarest(freq, heap, n);
    ghost var h2 := heap[..];
    TwoRarest(f, l, h0, n + 1, h2, trees, syms, cost);
    ghost var b := h2[0];
    RootsApart(f, l, temp, b, h2[1..n], trees, syms);
    trees' := trees[256 + n := Fork(256 + n, trees[temp], trees[b])];
    JoinRarest(freq, heap, link, n, temp);
    MergeTurn(f, l, h2, temp, n + 1, heap[..], trees, syms, cost);
  }

  /** Makes node 256+n the parent of `temp` and of the root, and puts it in the heap for both. */
  method JoinRarest(freq: array<nat>, heap: array<nat>, link: array<int>, n: nat, temp: nat)
    requires freq != heap && freq.Length == 512 && heap.Length == 256 && link.Length == 512
    requires 1 <= n < 256 && InTable(heap[..]) && HeapFrom(freq[..], heap[..], n, 1)
    requires temp < 512 && temp != heap[0] && forall i :: 1 <= i < n ==> heap[i] != 256 + n
    modifies freq, heap, link
    ensures freq[..] == old(freq[..])[256 + n := old(freq[heap[0]]) + old(freq[temp])]
    ensures link[..] == old(link[..])[temp := 256 + n][old(heap[0]) := 0 - (256 + n)]
    ensures InTable(heap[..]) && HeapFrom(freq[..], heap[..], n, 1)
    ensures multiset(heap[..n]) == multiset(old(heap[..])[0 := 256 + n][..n])
    ensures 256 + n in heap[..n]
  {
    hide HeapFrom;
    ghost var h, f := heap[..], freq[..];
    PutRoot(f, h, n, 256 + n, f[h[0]] + f[temp]);
    freq[256 + n] := freq[heap[0]] + freq[temp];
    link[temp] := 256 + n;
    link[heap[0]] := -256 - n;
    heap[0] := 256 + n;
    assert heap[..] == h[0 := 256 + n];
    ghost var f' := freq[..];
    assert f' == f[256 + n := f[h[0]] + f[temp]];
    assert heap[..n][0] == 256 + n;
    assert 256 + n in multiset(heap[..n]);
    HeapAdjust(freq, heap, n, 1);
    assert freq[..] == f';
    assert 256 + n in multiset(heap[..n]);
  }

  method BuildTrie(freq: array<nat>, heap: array<nat>, link: array<int>, n0: nat) returns (n: nat, ghost t: HTree)
    requires freq != heap && freq.Length == 512 && heap.Length == 256 && link.Length == 512
    requires 1 <= n0 <= 256 && InTable(heap[..]) && HeapFrom(freq[..], heap[..], n0, 1)
    requires multiset(heap[..n0]) == multiset(Occurring(freq[..], 256))
    requires forall i :: 0 <= i < 512 ==> link[i] == 0
    modifies freq, heap, link
    ensures n == 1 && freq[..256] == old(freq[..256])
    ensures Trie(t, old(freq[..]), link[..], Occurring(old(freq[..]), 256))
    ensures n0 == 1 <==> t.Leaf?
    ensures t.Fork? ==> RootId(t) == 257
  {
    hide Merging, HeapFrom, Forest, GradedForest, Occurring, TotalCost, Sorted, Pick, HuffCost, Trie;
    ghost var f0 := freq[..];
    ghost var occ := Occurring(f0, 256);
    ghost var syms := set c | c in occ;
    ghost var cost := HuffCost(Sorted(Pick(f0, occ)));
    ghost var trees := Seedlings(f0, link[..], heap[..n0]);
    n := n0;
    MergingStart(f0, link[..], heap[..], n, trees, syms, cost);
    while n > 1
      invariant 1 <= n <= n0 && InTable(heap[..])
      invariant Merging(freq[..], link[..], heap[..], n, trees, syms, cost)
      invariant freq[..256] == f0[..256]
      invariant n < n0 ==> 256 + n in heap[..n]
      invariant n == n0 ==> multiset(heap[..n0]) == multiset(occ) && forall i :: 0 <= i < 512 ==> link[i] == 0
    {
      n := n - 1;
      trees := MergeOnce(freq, heap, link, n, trees, syms, cost);
    }
    t := FinalTree(freq[..], link[..], heap[..], trees, syms, cost);
    ghost var l := link[..];
    link[256 + n] := 0;
    TrieDone(t, f0, freq[..], l, link[..], occ, n0, heap[0], cost);
  }

  lemma MergingStart(f: seq<nat>, link: seq<int>, h: seq<nat>, n: nat, trees: seq<HTree>, syms: set<nat>, cost: nat)
    requires |f| == 512 && |link| == 512 && |h| == 256 && 1 <= n <= 256 && InTable(h) && HeapFrom(f, h, n, 1)
    requires Forest(f, link, h[..n], trees, syms) && |trees| == 512 && TotalCost(f, trees, h[..n]) == cost
    requires GradedForest(f, h[..n], trees)
    ensures Merging(f, link, h, n, trees, syms, cost)
  {
  }

  lemma MergingHeap(f: seq<nat>, link: seq<int>, h: seq<nat>, n: nat, trees: seq<HTree>, syms: set<nat>, cost: nat)
    requires Merging(f, link, h, n, trees, syms, cost) && n >= 2
    ensures |f| == 512 && |h| == 256 && InTable(h[0 := h[n - 1]]) && HeapFrom(f, h[0 := h[n - 1]], n - 1, 2)
  {
    TakeRoot(f, h, n);
  }

  lemma RootsApart(f: seq<nat>, link: seq<int>, a: nat, b: nat, rest: seq<nat>, trees: seq<HTree>, syms: set<nat>)
    requires |rest| + 2 <= 256 && Forest(f, link, [a, b] + rest, trees, syms)
    ensures a != b && a < 512 && b < 512 && |trees| == 512
    ensures forall i :: 0 <= i < |rest| ==> rest[i] != 256 + |rest| + 1
  {
    MergeForest(f, link, a, b, rest, trees, syms);
  }

  lemma FinalTree(f: seq<nat>, link: seq<int>, h: seq<nat>, trees: seq<HTree>, syms: set<nat>, cost: nat)
    returns (t: HTree)
    requires Merging(f, link, h, 1, trees, syms, cost)
    ensures |f| == 512 && |link| == 512 && h[0] < 512 && Planted(f, link, h[0], t, 1)
    ensures PathCost(f, t) == cost && Graded(f, t) && forall s :: s in Symbols(t) <==> s in syms
  {
    t := trees[h[0]];
    var hs := h[..1];
    assert hs == [h[0]] && hs[0] in hs;
    var c := CostTable(f, trees);
    assert Pick(c, hs) == [c[h[0]]] && Sum([c[h[0]]]) == c[h[0]];
    assert |Sorted(Pick(f, hs))| == 1;
    forall s ensures s in Symbols(t) <==> s in syms {
      if s in syms {
        var r :| r in hs && s in Symbols(trees[r]);
        assert r == h[0];
      }
    }
  }

  lemma TrieDone(t: HTree, f0: seq<nat>, f: seq<nat>, link: seq<int>, link': seq<int>, occ: seq<nat>,
                 n0: nat, root: nat, cost: nat)
    requires |f| == |f0| == 512 && f[..256] == f0[..256] && |link| == 512 && root < 512
    requires Planted(f, link, root, t, 1) && PathCost(f, t) == cost && Graded(f, t)
    requires occ == Occurring(f0, 256) && cost == HuffCost(Sorted(Pick(f0, occ)))
    requires (forall s :: s in Symbols(t) <==> s in (set c | c in occ))
    requires link' == link[257 := 0]
    requires n0 != 1 ==> root == 257
    requires n0 == 1 ==> root in occ && link[root] == 0
    ensures Trie(t, f0, link', occ) && (n0 == 1 <==> t.Leaf?) && (t.Fork? ==> RootId(t) == 257)
  {
    WeightFrame(f, f0, t);
    GradedFrame(f, f0, t);
    OccurringAll(f0, 256);
    IdsBound(t);
    LinkedFrame(link, link', t);
  }
}
