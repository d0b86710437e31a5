/** The indirect min-heap of huffbench: `heap` holds node numbers ordered by `freq`. */
module HuffHeap {
  import opened Swaps

  /** Node numbers stay inside the frequency table. */
  predicate InTable(h: seq<nat>) { forall i :: 0 <= i < |h| ==> h[i] < 512 }

  /** In the 1-based heap on the first `n` entries, no node whose parent is at `k` or later is
      rarer than its parent. */
  ghost predicate HeapFrom(f: seq<nat>, h: seq<nat>, n: nat, k: nat)
    requires |f| == 512 && InTable(h)
  {
    n <= |h| && forall i :: 2 <= i <= n && i / 2 >= k ==> f[h[i / 2 - 1]] <= f[h[i - 1]]
  }

  /** Heap order except below position `k`, whose children already respect its parent. */
  ghost predicate HeapExcept(f: seq<nat>, h: seq<nat>, n: nat, k0: nat, k: nat)
    requires |f| == 512 && InTable(h)
  {
    && 1 <= k0 <= k <= n <= |h|
    && (forall i :: 2 <= i <= n && i / 2 >= k0 && i / 2 != k ==> f[h[i / 2 - 1]] <= f[h[i - 1]])
    && (k / 2 >= k0 ==> forall i :: 2 <= i <= n && i / 2 == k ==> f[h[k / 2 - 1]] <= f[h[i - 1]])
  }

  /** Moving the smaller child up keeps the order everywhere but below the child's place. */
  lemma SiftStep(f: seq<nat>, g: seq<nat>, n: nat, k0: nat, k: nat, j: nat)
    requires |f| == 512 && InTable(g) && HeapExcept(f, g, n, k0, k)
    requires 2 * k <= n && (j == 2 * k || (j == 2 * k + 1 && j <= n))
    requires f[g[j - 1]] <= f[g[2 * k - 1]] && (2 * k + 1 <= n ==> f[g[j - 1]] <= f[g[2 * k]])
    requires f[g[j - 1]] <= f[g[k - 1]]
    ensures HeapExcept(f, Swap(g, k - 1, j - 1), n, k0, j)
  {
    var r := Swap(g, k - 1, j - 1);
    forall i | 2 <= i <= n && i / 2 >= k0 && i / 2 != j ensures f[r[i / 2 - 1]] <= f[r[i - 1]] {
      if i / 2 == k {
        assert i == 2 * k || i == 2 * k + 1;
      } else if i == k {
        assert f[g[k / 2 - 1]] <= f[g[j - 1]];
      }
    }
    forall i | 2 <= i <= n && i / 2 == j ensures f[r[j / 2 - 1]] <= f[r[i - 1]] {
      assert f[g[i / 2 - 1]] <= f[g[i - 1]];
    }
  }

  /** Once no child is rarer than position `k`, the whole heap is in order. */
  lemma SiftEnd(f: seq<nat>, g: seq<nat>, n: nat, k0: nat, k: nat)
    requires |f| == 512 && InTable(g) && HeapExcept(f, g, n, k0, k)
    requires 2 * k <= n ==> f[g[k - 1]] <= f[g[2 * k - 1]]
    requires 2 * k + 1 <= n ==> f[g[k - 1]] <= f[g[2 * k]]
    ensures HeapFrom(f, g, n, k0)
  {
    forall i | 2 <= i <= n && i / 2 >= k0 ensures f[g[i / 2 - 1]] <= f[g[i - 1]] {
      if i / 2 == k {
        assert i == 2 * k || i == 2 * k + 1;
      }
    }
  }

  /** Half way down: the array `h` is the conceptual heap `g` except at the hole `k`, whose entry
      `v` is held in a local variable; `g` is a rearrangement of the first `n` entries of `g0`. */
  ghost predicate Sifting(f: seq<nat>, g0: seq<nat>, g: seq<nat>, h: seq<nat>, n: nat, k0: nat, k: nat, v: nat) {
    && |f| == 512 && 1 <= k <= n <= |g| == |h| == |g0| && InTable(g) && HeapExcept(f, g, n, k0, k)
    && g[k - 1] == v && h == g[k - 1 := h[k - 1]]
    && multiset(g[..n]) == multiset(g0[..n]) && g[n..] == g0[n..]
  }

  lemma SiftStart(f: seq<nat>, g: seq<nat>, n: nat, k0: nat)
    requires |f| == 512 && InTable(g) && 1 <= k0 <= n && HeapFrom(f, g, n, k0 + 1)
    ensures Sifting(f, g, g, g, n, k0, k0, g[k0 - 1])
  {
  }

  lemma HoleMoves(g: seq<nat>, h: seq<nat>, k: nat, j: nat, v: nat)
    requires |g| == |h| && k < j < |g| && g[k] == v && h == g[k := h[k]] && InTable(h) && InTable(g)
    ensures g[j] == h[j] && Swap(g, k, j)[j] == v
    ensures h[k := h[j]] == Swap(g, k, j)[j := h[k := h[j]][j]]
    ensures InTable(h[k := h[j]]) && InTable(Swap(g, k, j))
    ensures forall i :: 0 <= i < |h| && i != k ==> h[i] == g[i]
  {
  }

  /** The child at `j` moves into the hole. */
  lemma SiftDown(f: seq<nat>, g0: seq<nat>, g: seq<nat>, h: seq<nat>, n: nat, k0: nat, k: nat, v: nat, j: nat)
    requires Sifting(f, g0, g, h, n, k0, k, v) && InTable(h) && v < 512
    requires 2 * k <= n && (j == 2 * k || (j == 2 * k + 1 && j <= n))
    requires f[h[j - 1]] <= f[h[2 * k - 1]] && (2 * k + 1 <= n ==> f[h[j - 1]] <= f[h[2 * k]])
    requires f[h[j - 1]] <= f[v]
    ensures j <= n && Sifting(f, g0, Swap(g, k - 1, j - 1), h[k - 1 := h[j - 1]], n, k0, j, v)
    ensures InTable(h[k - 1 := h[j - 1]])
  {
    hide HeapExcept;
    HoleMoves(g, h, k - 1, j - 1, v);
    SiftStep(f, g, n, k0, k, j);
    SwapPrefix(g, n, k - 1, j - 1);
  }

  /** The held entry drops into the hole. */
  lemma SiftStop(f: seq<nat>, g0: seq<nat>, g: seq<nat>, h: seq<nat>, n: nat, k0: nat, k: nat, v: nat)
    requires Sifting(f, g0, g, h, n, k0, k, v) && InTable(h) && v < 512
    requires 2 * k <= n ==> f[v] <= f[h[2 * k - 1]]
    requires 2 * k + 1 <= n ==> f[v] <= f[h[2 * k]]
    ensures h[k - 1 := v] == g && InTable(g) && HeapFrom(f, g, n, k0)
    ensures multiset(g[..n]) == multiset(g0[..n]) && g[n..] == g0[n..]
  {
    SiftEnd(f, g, n, k0, k);
  }

  /** `heap_adjust`: sifts entry `k0` down. */
  method HeapAdjust(freq: array<nat>, heap: array<nat>, n: nat, k0: nat)
    requires freq != heap && freq.Length == 512 && n <= heap.Length && 1 <= k0 <= n
    requires InTable(heap[..]) && HeapFrom(freq[..], heap[..], n, k0 + 1)
    modifies heap
    ensures InTable(heap[..]) && HeapFrom(freq[..], heap[..], n, k0)
    ensures multiset(heap[..n]) == multiset(old(heap[..n])) && heap[n..] == old(heap[n..])
  {
    hide HeapFrom, HeapExcept, Sifting;
    ghost var f, g0, g := freq[..], heap[..], heap[..];
    var k := k0;
    var v := heap[k - 1];
    SiftStart(f, g, n, k0);
    while k <= n / 2
      invariant 1 <= k <= n && InTable(heap[..]) && freq[..] == f && |g| == heap.Length
      invariant Sifting(f, g0, g, heap[..], n, k0, k, v)
    {
      var j := k + k;
      if j < n && freq[heap[j - 1]] > freq[heap[j]] {
        j := j + 1;
      }
      if freq[v] < freq[heap[j - 1]] {
        break;
      }
      SiftDown(f, g0, g, heap[..], n, k0, k, v, j);
      g := Swap(g, k - 1, j - 1);
      heap[k - 1] := heap[j - 1];
      k := j;
    }
    SiftStop(f, g0, g, heap[..], n, k0, k, v);
    heap[k - 1] := v;
    assert heap[..] == g && freq[..] == f;
    assert heap[..n] == g[..n] && heap[n..] == g[n..];
  }

  lemma SwapPrefix<A>(s: seq<A>, n: nat, i: nat, j: nat)
    requires i < n <= |s| && j < n
    ensures multiset(Swap(s, i, j)[..n]) == multiset(s[..n]) && Swap(s, i, j)[n..] == s[n..]
  {
    assert Swap(s, i, j)[..n] == Swap(s[..n], i, j);
    SwapKeeps(s[..n], i, j);
  }

  /** The root of a heap is a minimum. */
  lemma {:induction false} RootIsMin(f: seq<nat>, h: seq<nat>, n: nat, i: nat)
    requires |f| == 512 && InTable(h) && 1 <= i <= n && HeapFrom(f, h, n, 1)
    ensures f[h[0]] <= f[h[i - 1]]
    decreases i
  {
    if i > 1 { RootIsMin(f, h, n, i / 2); }
  }
}
