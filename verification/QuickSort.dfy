/** sglib's array quicksort with an explicit stack of segments. */
module QuickSort {
  import opened Arith
  import opened Swaps

  /** Positions from lo up to but not including hi. */
  datatype Seg = Seg(lo: nat, hi: nat)

  ghost predicate In(g: Seg, i: nat) { g.lo <= i < g.hi }

  ghost predicate Apart(pend: seq<Seg>) {
    forall t, u :: 0 <= t < u < |pend| ==> pend[t].hi <= pend[u].lo || pend[u].hi <= pend[t].lo
  }

  /** Both positions lie in one segment that is still to be sorted. */
  ghost predicate Together(pend: seq<Seg>, i: nat, j: nat) {
    exists t :: 0 <= t < |pend| && In(pend[t], i) && In(pend[t], j)
  }

  /** Positions that do not lie together in a pending segment are in order. */
  ghost predicate Ordered<T>(a: seq<T>, n: nat, pend: seq<Seg>, key: T -> int) {
    && n <= |a| && Apart(pend) && (forall t :: 0 <= t < |pend| ==> pend[t].lo <= pend[t].hi <= n)
    && forall i, j :: 0 <= i < j < n && !Together(pend, i, j) ==> key(a[i]) <= key(a[j])
  }

  lemma TogetherWith(pend: seq<Seg>, t: nat, x: nat, j: nat)
    requires Apart(pend) && t < |pend| && In(pend[t], x)
    ensures Together(pend, x, j) <==> In(pend[t], j)
    ensures Together(pend, j, x) <==> In(pend[t], j)
  {
  }

  /** Exchanging two elements of a pending segment keeps the order. */
  lemma SwapOrdered<T>(a: seq<T>, n: nat, pend: seq<Seg>, key: T -> int, t: nat, x: nat, y: nat)
    requires Ordered(a, n, pend, key) && t < |pend| && In(pend[t], x) && In(pend[t], y)
    ensures x < n && y < n && Ordered(Swap(a, x, y), n, pend, key)
  {
    var b := Swap(a, x, y);
    forall i, j | 0 <= i < j < n && !Together(pend, i, j) ensures key(b[i]) <= key(b[j]) {
      var i' := if i == x then y else if i == y then x else i;
      var j' := if j == x then y else if j == y then x else j;
      assert b[i] == a[i'] && b[j] == a[j'];
      hide Together;
      if In(pend[t], i) {
        TogetherWith(pend, t, i, j);
        TogetherWith(pend, t, i', j);
        assert j' == j && i' < j;
      } else if In(pend[t], j) {
        TogetherWith(pend, t, j, i);
        TogetherWith(pend, t, j', i);
        assert i' == i && i < j';
      }
    }
  }

  /** A segment with its pivot in place falls into the parts before and after it. */
  lemma SplitOrdered<T>(a: seq<T>, n: nat, pend: seq<Seg>, key: T -> int, lo: nat, m: nat, hi: nat)
    requires Ordered(a, n, pend + [Seg(lo, hi)], key) && lo <= m < hi <= n <= |a|
    requires forall x :: lo <= x < m ==> key(a[x]) <= key(a[m])
    requires forall y :: m < y < hi ==> key(a[m]) <= key(a[y])
    ensures Ordered(a, n, pend + [Seg(lo, m), Seg(m + 1, hi)], key)
    ensures Ordered(a, n, pend + [Seg(m + 1, hi), Seg(lo, m)], key)
  {
    SplitOnce(a, n, pend, key, lo, m, hi, Seg(lo, m), Seg(m + 1, hi));
    SplitOnce(a, n, pend, key, lo, m, hi, Seg(m + 1, hi), Seg(lo, m));
  }

  lemma SplitOnce<T>(a: seq<T>, n: nat, pend: seq<Seg>, key: T -> int, lo: nat, m: nat, hi: nat, g: Seg, h: Seg)
    requires Ordered(a, n, pend + [Seg(lo, hi)], key) && lo <= m < hi <= n <= |a|
    requires forall x :: lo <= x < m ==> key(a[x]) <= key(a[m])
    requires forall y :: m < y < hi ==> key(a[m]) <= key(a[y])
    requires (g == Seg(lo, m) && h == Seg(m + 1, hi)) || (h == Seg(lo, m) && g == Seg(m + 1, hi))
    ensures Ordered(a, n, pend + [g, h], key)
  {
    hide Apart;
    var p, q := pend + [Seg(lo, hi)], pend + [g, h];
    var d := |pend|;
    SplitApart(pend, Seg(lo, hi), g, h);
    assert forall t :: 0 <= t < d ==> q[t] == pend[t] == p[t];
    assert p[d] == Seg(lo, hi) && q[d] == g && q[d + 1] == h;
    forall i, j | 0 <= i < j < n && !Together(q, i, j) ensures key(a[i]) <= key(a[j]) {
      if Together(p, i, j) {
        var t :| 0 <= t < |p| && In(p[t], i) && In(p[t], j);
        assert t == d;
        assert !(In(q[d], i) && In(q[d], j)) && !(In(q[d + 1], i) && In(q[d + 1], j));
        assert key(a[i]) <= key(a[m]) || i == m;
      }
    }
  }

  lemma SplitApart(pend: seq<Seg>, whole: Seg, g: Seg, h: Seg)
    requires Apart(pend + [whole]) && whole.lo <= g.lo && g.hi <= whole.hi && whole.lo <= h.lo && h.hi <= whole.hi
    requires g.hi <= h.lo || h.hi <= g.lo
    ensures Apart(pend + [g, h])
  {
    var p, q := pend + [whole], pend + [g, h];
    var d := |pend|;
    assert forall t :: 0 <= t < d ==> q[t] == pend[t] == p[t];
    forall t, u | 0 <= t < u < |q| ensures q[t].hi <= q[u].lo || q[u].hi <= q[t].lo {
      if u >= d && t < d { assert p[t].hi <= p[d].lo || p[d].hi <= p[t].lo; }
      if u < d { assert p[t].hi <= p[u].lo || p[u].hi <= p[t].lo; }
    }
  }

  /** A segment whose elements are in order is done. */
  lemma DropOrdered<T>(a: seq<T>, n: nat, pend: seq<Seg>, key: T -> int, g: Seg)
    requires g.hi <= n <= |a| && Ordered(a, n, pend + [g], key)
    requires forall i, j :: g.lo <= i < j < g.hi ==> key(a[i]) <= key(a[j])
    ensures Ordered(a, n, pend, key)
  {
    var p := pend + [g];
    assert forall t :: 0 <= t < |pend| ==> p[t] == pend[t];
    forall t, u | 0 <= t < u < |pend| ensures pend[t].hi <= pend[u].lo || pend[u].hi <= pend[t].lo {
      assert p[t] == pend[t] && p[u] == pend[u];
    }
    forall i, j | 0 <= i < j < n && !Together(pend, i, j) ensures key(a[i]) <= key(a[j]) {
      if Together(p, i, j) {
        var t :| 0 <= t < |p| && In(p[t], i) && In(p[t], j);
      }
    }
  }

  // ---- partitioning ----

  method Exchange<T>(a: array<T>, x: nat, y: nat)
    requires x < a.Length && y < a.Length
    modifies a
    ensures a[..] == Swap(old(a[..]), x, y)
  {
    var tmp := a[x];
    a[x] := a[y];
    a[y] := tmp;
  }

  /** Nothing but the order of the elements of the segment has changed. */
  ghost predicate Kept<T>(a: seq<T>, a0: seq<T>, n: nat, rest: seq<Seg>, lo: nat, hi: nat, key: T -> int) {
    && |a| == |a0| && lo <= hi <= n <= |a| && Ordered(a, n, rest + [Seg(lo, hi)], key)
    && multiset(a) == multiset(a0) && a[n..] == a0[n..]
  }

  lemma KeptSwap<T>(a: seq<T>, a0: seq<T>, n: nat, rest: seq<Seg>, lo: nat, hi: nat, key: T -> int, x: nat, y: nat)
    requires Kept(a, a0, n, rest, lo, hi, key) && lo <= x < hi && lo <= y < hi
    ensures Kept(Swap(a, x, y), a0, n, rest, lo, hi, key)
  {
    var p := rest + [Seg(lo, hi)];
    assert p[|rest|] == Seg(lo, hi);
    SwapOrdered(a, n, p, key, |rest|, x, y);
    SwapKeeps(a, x, y);
  }

  /** The scan: before `i` nothing above the pivot, after `j` nothing below it. */
  ghost predicate Scanned<T>(a: seq<T>, lo: nat, hi: nat, i: nat, j: nat, key: T -> int) {
    && lo < i && j < hi <= |a| && i <= j + 1
    && (forall x :: lo < x < i ==> key(a[x]) <= key(a[lo]))
    && (forall y :: j < y < hi ==> key(a[lo]) <= key(a[y]))
  }

  /** The pivot in its final place. */
  ghost predicate Parted<T>(a: seq<T>, lo: nat, m: nat, hi: nat, key: T -> int) {
    && lo <= m < hi <= |a|
    && (forall x :: lo <= x < m ==> key(a[x]) <= key(a[m]))
    && (forall y :: m < y < hi ==> key(a[m]) <= key(a[y]))
  }

  /** When the scans have met, exchanging the pivot with the last small element puts it in its place. */
  lemma PlacePivot<T>(a: seq<T>, lo: nat, hi: nat, j: nat, key: T -> int)
    requires Scanned(a, lo, hi, j + 1, j, key)
    ensures Parted(Swap(a, j, lo), lo, j, hi, key)
  {
  }

  lemma SwapScanned<T>(a: seq<T>, lo: nat, hi: nat, i: nat, j: nat, key: T -> int)
    requires Scanned(a, lo, hi, i, j, key) && i < j && key(a[i]) > key(a[lo]) > key(a[j])
    ensures Scanned(Swap(a, i, j), lo, hi, i, j, key)
    ensures key(Swap(a, i, j)[i]) < key(Swap(a, i, j)[lo]) < key(Swap(a, i, j)[j])
  {
  }

  /** One turn of the partition loop; afterwards the pivot is in place, or the scans are nearer to
      each other, or the element at `i` has become small. */
  method PartitionTurn<T>(a: array<T>, lo: nat, hi: nat, i0: nat, j0: nat, key: T -> int,
                          ghost a0: seq<T>, ghost n: nat, ghost rest: seq<Seg>)
    returns (i: nat, j: nat)
    requires Kept(a[..], a0, n, rest, lo, hi, key) && Scanned(a[..], lo, hi, i0, j0, key) && i0 < j0
    modifies a
    ensures Kept(a[..], a0, n, rest, lo, hi, key)
    ensures if i < j then Scanned(a[..], lo, hi, i, j, key) else i == j && Parted(a[..], lo, i, hi, key)
    ensures i < j ==>
      j - i < j0 - i0 || (i == i0 && j == j0 && key(old(a[i])) > key(old(a[lo])) && key(a[i]) <= key(a[lo]))
  {
    hide Kept;
    i, j := i0, j0;
    KeptBounds(a[..], a0, n, rest, lo, hi, key);
    while i <= j && key(a[i]) - key(a[lo]) <= 0
      invariant i0 <= i && Scanned(a[..], lo, hi, i, j, key)
      decreases j + 1 - i
    {
      i := i + 1;
    }
    if i > j {
      KeptSwap(a[..], a0, n, rest, lo, hi, key, j, lo);
      PlacePivot(a[..], lo, hi, j, key);
      Exchange(a, j, lo);
      i := j;
    } else {
      while i <= j && key(a[j]) - key(a[lo]) >= 0
        invariant j <= j0 && Scanned(a[..], lo, hi, i, j, key)
        decreases j + 1 - i
      {
        j := j - 1;
      }
      if i > j {
        KeptSwap(a[..], a0, n, rest, lo, hi, key, j, lo);
        PlacePivot(a[..], lo, hi, j, key);
        Exchange(a, j, lo);
        i := j;
      } else if i < j {
        KeptSwap(a[..], a0, n, rest, lo, hi, key, i, j);
        SwapScanned(a[..], lo, hi, i, j, key);
        Exchange(a, i, j);
        if i + 2 < j {
          i := i + 1;
          j := j - 1;
        } else if i + 1 < j {
          i := i + 1;
        }
      }
    }
  }

  lemma KeptBounds<T>(a: seq<T>, a0: seq<T>, n: nat, rest: seq<Seg>, lo: nat, hi: nat, key: T -> int)
    requires Kept(a, a0, n, rest, lo, hi, key)
    ensures lo <= hi <= n <= |a|
  {
  }

  method Partition<T>(a: array<T>, lo: nat, hi: nat, key: T -> int, ghost a0: seq<T>, ghost n: nat,
                      ghost rest: seq<Seg>)
    returns (m: nat)
    requires Kept(a[..], a0, n, rest, lo, hi, key) && hi - lo > 2
    modifies a
    ensures Kept(a[..], a0, n, rest, lo, hi, key) && Parted(a[..], lo, m, hi, key)
  {
    hide Kept;
    KeptBounds(a[..], a0, n, rest, lo, hi, key);
    var i: nat := lo + 1;
    var j: nat := hi - 1;
    while i < j
      invariant Kept(a[..], a0, n, rest, lo, hi, key)
      invariant if i < j then Scanned(a[..], lo, hi, i, j, key) else i == j && Parted(a[..], lo, i, hi, key)
      decreases j - i, if i < j && key(a[i]) > key(a[lo]) then 1 else 0
    {
      i, j := PartitionTurn(a, lo, hi, i, j, key, a0, n, rest);
    }
    m := i;
  }

  // ---- the stack ----

  /** The two arrays hold the pending segments. */
  ghost predicate Stacked(starts: seq<nat>, ends: seq<nat>, stack: seq<Seg>) {
    && |starts| == |ends| == 64 && |stack| <= 64
    && forall t :: 0 <= t < |stack| ==> stack[t] == Seg(starts[t], ends[t])
  }

  /** The segment at depth d has at most max/2^d elements. */
  ghost predicate Shallow(stack: seq<Seg>, max: nat) {
    forall t :: 0 <= t < |stack| ==> stack[t].lo <= stack[t].hi && Pow2(t) * (stack[t].hi - stack[t].lo) <= max
  }

  /** A bound for the work left. */
  ghost function Weight(stack: seq<Seg>): nat {
    if stack == [] then 0
    else
      var g := stack[|stack| - 1];
      Weight(stack[..|stack| - 1]) + (if g.lo <= g.hi then 2 * (g.hi - g.lo) + 1 else 1)
  }

  lemma WeightPush(stack: seq<Seg>, g: Seg)
    requires g.lo <= g.hi
    ensures Weight(stack + [g]) == Weight(stack) + 2 * (g.hi - g.lo) + 1
  {
    assert (stack + [g])[..|stack|] == stack;
  }

  /** A segment that is still split lies at a depth below 63. */
  lemma DepthBound(d: nat, size: nat, max: nat)
    requires Pow2(d) * size <= max < 0x1_0000_0000_0000_0000 && size > 2
    ensures d < 63
  {
    Pow2At64();
    MulLe(Pow2(d), 3, Pow2(d), size);
    if d >= 63 {
      Pow2Add(63, d - 63);
    }
  }

  /** The larger part goes on the stack at depth d, the smaller one, at most half, stays above it. */
  lemma HalfDeeper(d: nat, size: nat, large: nat, small: nat, max: nat)
    requires Pow2(d) * size <= max && small <= large && small + large < size
    ensures Pow2(d) * large <= max && Pow2(d + 1) * small <= max
  {
    MulLe(Pow2(d), large, Pow2(d), size);
    MulLe(Pow2(d), 2 * small, Pow2(d), size);
    assert Pow2(d + 1) * small == Pow2(d) * (2 * small);
  }

  lemma StillShallow(d: nat, size: nat, part: nat, max: nat)
    requires Pow2(d) * size <= max && part <= size
    ensures Pow2(d) * part <= max
  {
    MulLe(Pow2(d), part, Pow2(d), size);
  }

  /** What is known between two partitions: `cur` is being sorted, `stack` waits. */
  ghost predicate Sorting<T>(a: seq<T>, a0: seq<T>, n: nat, stack: seq<Seg>, lo: nat, hi: nat, key: T -> int, w: nat) {
    && Kept(a, a0, n, stack, lo, hi, key) && Shallow(stack, n) && Pow2(|stack|) * (hi - lo) <= n
    && Weight(stack) + 2 * (hi - lo) + 1 <= w
  }

  /** Splitting with a push. */
  lemma PushPart<T>(a: seq<T>, a0: seq<T>, n: nat, stack: seq<Seg>, lo: nat, m: nat, hi: nat, key: T -> int, w: nat)
    requires Sorting(a, a0, n, stack, lo, hi, key, w) && Parted(a, lo, m, hi, key)
    ensures m - lo < hi - m - 1 ==> Sorting(a, a0, n, stack + [Seg(m + 1, hi)], lo, m, key, w)
    ensures m - lo >= hi - m - 1 ==> Sorting(a, a0, n, stack + [Seg(lo, m)], m + 1, hi, key, w)
  {
    hide Ordered, Weight, Pow2;
    SplitOrdered(a, n, stack, key, lo, m, hi);
    var g := if m - lo < hi - m - 1 then Seg(m + 1, hi) else Seg(lo, m);
    var h := if m - lo < hi - m - 1 then Seg(lo, m) else Seg(m + 1, hi);
    assert stack + [g, h] == stack + [g] + [h];
    HalfDeeper(|stack|, hi - lo, g.hi - g.lo, h.hi - h.lo, n);
    WeightPush(stack, g);
    ShallowPush(stack, g, n);
  }

  lemma ShallowPush(stack: seq<Seg>, g: Seg, n: nat)
    requires Shallow(stack, n) && g.lo <= g.hi && Pow2(|stack|) * (g.hi - g.lo) <= n
    ensures Shallow(stack + [g], n)
  {
  }

  /** Splitting without a push: the other part is too short to need sorting. */
  lemma DropPart<T>(a: seq<T>, a0: seq<T>, n: nat, stack: seq<Seg>, lo: nat, m: nat, hi: nat, key: T -> int, w: nat)
    requires Sorting(a, a0, n, stack, lo, hi, key, w) && Parted(a, lo, m, hi, key)
    ensures hi - m <= 1 ==> Sorting(a, a0, n, stack, lo, m, key, w)
    ensures m - lo <= 1 ==> Sorting(a, a0, n, stack, m + 1, hi, key, w)
  {
    hide Ordered, Weight, Pow2;
    SplitOrdered(a, n, stack, key, lo, m, hi);
    var g, h := Seg(lo, m), Seg(m + 1, hi);
    assert stack + [g, h] == (stack + [g]) + [h] && stack + [h, g] == (stack + [h]) + [g];
    StillShallow(|stack|, hi - lo, m - lo, n);
    StillShallow(|stack|, hi - lo, hi - m - 1, n);
    if hi - m <= 1 { DropOrdered(a, n, stack + [g], key, h); }
    if m - lo <= 1 { DropOrdered(a, n, stack + [h], key, g); }
  }

  /** Taking the top of the stack. */
  lemma PopPart<T>(a: seq<T>, a0: seq<T>, n: nat, stack: seq<Seg>, key: T -> int)
    requires stack != [] && Ordered(a, n, stack, key) && Shallow(stack, n)
    requires |a| == |a0| && n <= |a| && multiset(a) == multiset(a0) && a[n..] == a0[n..]
    ensures
      var d := |stack| - 1;
      Sorting(a, a0, n, stack[..d], stack[d].lo, stack[d].hi, key, Weight(stack))
  {
    hide Weight, Pow2, Apart, Together;
    var d := |stack| - 1;
    assert stack[..d] + [stack[d]] == stack;
    WeightPush(stack[..d], stack[d]);
  }

  /** The current segment, of at most two elements in order, is done. */
  lemma FinishPart<T>(a: seq<T>, a0: seq<T>, n: nat, stack: seq<Seg>, lo: nat, hi: nat, key: T -> int, w: nat)
    requires Sorting(a, a0, n, stack, lo, hi, key, w) && hi - lo <= 2 && (hi - lo == 2 ==> key(a[lo]) <= key(a[lo + 1]))
    ensures Ordered(a, n, stack, key) && Shallow(stack, n) && Weight(stack) < w
    ensures |a| == |a0| && multiset(a) == multiset(a0) && n <= |a| && a[n..] == a0[n..]
  {
    hide Ordered, Weight, Pow2, Shallow;
    DropOrdered(a, n, stack, key, Seg(lo, hi));
  }

  // ---- the sort ----

  method Push(starts: array<nat>, ends: array<nat>, i: nat, lo: nat, hi: nat, ghost stack: seq<Seg>)
    requires starts != ends && Stacked(starts[..], ends[..], stack) && i == |stack| < 64
    modifies starts, ends
    ensures Stacked(starts[..], ends[..], stack + [Seg(lo, hi)])
  {
    starts[i] := lo;
    ends[i] := hi;
  }

  /** With the pivot at `m`: the larger part is pushed and the smaller one comes next, or the only
      part long enough to need sorting does. */
  method ChoosePart<T>(lo: nat, m: nat, hi: nat, key: T -> int, starts: array<nat>, ends: array<nat>, i: nat,
                       ghost a: seq<T>, ghost a0: seq<T>, ghost n: nat, ghost stack: seq<Seg>, ghost w: nat)
    returns (lo': nat, hi': nat, i': nat, ghost stack': seq<Seg>)
    requires starts != ends && Stacked(starts[..], ends[..], stack) && i == |stack| < 63
    requires Sorting(a, a0, n, stack, lo, hi, key, w) && Parted(a, lo, m, hi, key) && lo <= m < hi
    modifies starts, ends
    ensures Stacked(starts[..], ends[..], stack') && i' == |stack'|
    ensures Sorting(a, a0, n, stack', lo', hi', key, w) && lo <= lo' && hi' <= hi && hi' - lo' < hi - lo
  {
    hide Sorting, Stacked, Parted;
    lo', hi', i', stack' := lo, hi, i, stack;
    if m - lo > 1 && hi - m > 1 {
      PushPart(a, a0, n, stack, lo, m, hi, key, w);
      if m - lo < hi - m - 1 {
        Push(starts, ends, i, m + 1, hi, stack);
        stack' := stack + [Seg(m + 1, hi)];
        i' := i + 1;
        hi' := m;
      } else {
        Push(starts, ends, i, lo, m, stack);
        stack' := stack + [Seg(lo, m)];
        i' := i + 1;
        lo' := m + 1;
      }
    } else {
      DropPart(a, a0, n, stack, lo, m, hi, key, w);
      if m - lo > 1 {
        hi' := m;
      } else {
        lo' := m + 1;
      }
    }
  }

  /** Splits the current segment until at most two elements are left of it. */
  method SplitDown<T>(a: array<T>, lo0: nat, hi0: nat, key: T -> int, starts: array<nat>, ends: array<nat>, i0: nat,
                      ghost a0: seq<T>, ghost n: nat, ghost stack0: seq<Seg>, ghost w: nat)
    returns (lo: nat, hi: nat, i: nat, ghost stack: seq<Seg>)
    requires starts != ends && a as object != starts && a as object != ends
    requires Stacked(starts[..], ends[..], stack0) && i0 == |stack0| && n < 0x1_0000_0000_0000_0000
    requires Sorting(a[..], a0, n, stack0, lo0, hi0, key, w)
    modifies a, starts, ends
    ensures Stacked(starts[..], ends[..], stack) && i == |stack|
    ensures Sorting(a[..], a0, n, stack, lo, hi, key, w) && hi - lo <= 2
  {
    hide Sorting, Stacked, Parted, Kept, Shallow, Weight, Pow2;
    lo, hi, i, stack := lo0, hi0, i0, stack0;
    while hi - lo > 2
      invariant Stacked(starts[..], ends[..], stack) && i == |stack|
      invariant Sorting(a[..], a0, n, stack, lo, hi, key, w)
    {
      SortingDepth(a[..], a0, n, stack, lo, hi, key, w);
      ghost var s, e := starts[..], ends[..];
      var m := Partition(a, lo, hi, key, a0, n, stack);
      assert starts[..] == s && ends[..] == e;
      SortingAfter(a[..], a0, n, stack, lo, hi, key, w, m);
      ghost var b := a[..];
      lo, hi, i, stack := ChoosePart(lo, m, hi, key, starts, ends, i, b, a0, n, stack, w);
      assert a[..] == b;
    }
  }

  lemma StackSizes(starts: seq<nat>, ends: seq<nat>, stack: seq<Seg>)
    requires Stacked(starts, ends, stack)
    ensures |starts| == |ends| == 64 && forall t :: 0 <= t < |stack| ==> t < 64 && stack[t] == Seg(starts[t], ends[t])
  {
  }

  lemma SortingDepth<T>(a: seq<T>, a0: seq<T>, n: nat, stack: seq<Seg>, lo: nat, hi: nat, key: T -> int, w: nat)
    requires Sorting(a, a0, n, stack, lo, hi, key, w) && hi - lo > 2 && n < 0x1_0000_0000_0000_0000
    ensures |stack| < 63 && Kept(a, a0, n, stack, lo, hi, key)
    ensures Shallow(stack, n) && Pow2(|stack|) * (hi - lo) <= n && Weight(stack) + 2 * (hi - lo) + 1 <= w
  {
    hide Ordered, Weight, Pow2, Shallow;
    DepthBound(|stack|, hi - lo, n);
  }

  lemma SortingAfter<T>(a: seq<T>, a0: seq<T>, n: nat, stack: seq<Seg>, lo: nat, hi: nat, key: T -> int, w: nat, m: nat)
    requires Kept(a, a0, n, stack, lo, hi, key) && Parted(a, lo, m, hi, key)
    requires Shallow(stack, n) && Pow2(|stack|) * (hi - lo) <= n && Weight(stack) + 2 * (hi - lo) + 1 <= w
    ensures Sorting(a, a0, n, stack, lo, hi, key, w) && lo <= m < hi
  {
  }

  /** Sorts the first `max` elements. The comment in the source promises up to 2^64 elements: the
      64 slots of the stack suffice, since a segment at depth d has at most max/2^d elements. */
  method QuickSort<T>(a: array<T>, max: nat, key: T -> int)
    requires max <= a.Length && max < 0x1_0000_0000_0000_0000
    modifies a
    ensures forall i, j :: 0 <= i < j < max ==> key(a[i]) <= key(a[j])
    ensures multiset(a[..]) == multiset(old(a[..])) && a[max..] == old(a[max..])
  {
    hide Sorting, Stacked, Ordered, Weight, Shallow;
    ghost var a0 := a[..];
    var starts := new nat[64](_ => 0);
    var ends := new nat[64](_ => 0);
    ghost var stack: seq<Seg> := [Seg(0, max)];
    starts[0] := 0;
    ends[0] := max;
    var stacki := 1;
    StartSorting(a0, max, starts[..], ends[..], key);
    while stacki > 0
      invariant stacki == |stack| && Stacked(starts[..], ends[..], stack) && Shallow(stack, max)
      invariant Ordered(a[..], max, stack, key) && multiset(a[..]) == multiset(a0) && a[max..] == a0[max..]
      decreases Weight(stack)
    {
      ghost var w := Weight(stack);
      StackSizes(starts[..], ends[..], stack);
      PopPart(a[..], a0, max, stack, key);
      stacki := stacki - 1;
      var lo := starts[stacki];
      var hi := ends[stacki];
      StackTail(starts[..], ends[..], stack);
      lo, hi, stacki, stack := SplitDown(a, lo, hi, key, starts, ends, stacki, a0, max, stack[..stacki], w);
      LastTwo(a, lo, hi, key, a0, max, stack, w);
      FinishPart(a[..], a0, max, stack, lo, hi, key, w);
    }
    NothingPending(a[..], max, key);
  }

  /** Two elements are compared and exchanged if need be. */
  method LastTwo<T>(a: array<T>, lo: nat, hi: nat, key: T -> int, ghost a0: seq<T>, ghost n: nat,
                    ghost stack: seq<Seg>, ghost w: nat)
    requires Sorting(a[..], a0, n, stack, lo, hi, key, w) && hi - lo <= 2
    modifies a
    ensures Sorting(a[..], a0, n, stack, lo, hi, key, w)
    ensures hi - lo == 2 ==> lo + 1 < a.Length && key(a[lo]) <= key(a[lo + 1])
  {
    hide Kept, Shallow, Weight, Pow2;
    KeptBounds(a[..], a0, n, stack, lo, hi, key);
    if hi - lo == 2 {
      if key(a[lo]) - key(a[hi - 1]) > 0 {
        KeptSwap(a[..], a0, n, stack, lo, hi, key, lo, hi - 1);
        Exchange(a, lo, hi - 1);
      }
    }
  }

  lemma StackTail(starts: seq<nat>, ends: seq<nat>, stack: seq<Seg>)
    requires Stacked(starts, ends, stack) && stack != []
    ensures Stacked(starts, ends, stack[..|stack| - 1])
  {
  }

  lemma StartSorting<T>(a: seq<T>, max: nat, starts: seq<nat>, ends: seq<nat>, key: T -> int)
    requires max <= |a| && |starts| == |ends| == 64 && starts[0] == 0 && ends[0] == max
    ensures Stacked(starts, ends, [Seg(0, max)]) && Shallow([Seg(0, max)], max) && Ordered(a, max, [Seg(0, max)], key)
  {
    var p := [Seg(0, max)];
    forall i, j | 0 <= i < j < max ensures Together(p, i, j) { assert In(p[0], i) && In(p[0], j); }
    assert Pow2(0) == 1;
  }

  lemma NothingPending<T>(a: seq<T>, n: nat, key: T -> int)
    requires Ordered(a, n, [], key)
    ensures n <= |a| && forall i, j :: 0 <= i < j < n ==> key(a[i]) <= key(a[j])
  {
    forall i, j | 0 <= i < j < n ensures key(a[i]) <= key(a[j]) { assert !Together([], i, j); }
  }
}
