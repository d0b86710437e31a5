/** Bottom-up merging on sequences: what one pass and the whole sort compute. */
module MergeSpec {

  ghost predicate Sorted<T>(s: seq<T>, key: T -> int) {
    forall i, j :: 0 <= i < j < |s| ==> key(s[i]) <= key(s[j])
  }

  /** The elements of key v, in their order. */
  function Class<T>(s: seq<T>, key: T -> int, v: int): seq<T> {
    if s == [] then []
    else (if key(s[0]) == v then [s[0]] else []) + Class(s[1..], key, v)
  }

  /** Merging prefers the first run on equal keys. */
  function Merge<T>(a: seq<T>, b: seq<T>, key: T -> int): (r: seq<T>)
    ensures |r| == |a| + |b|
    decreases |a| + |b|
  {
    if a == [] then b
    else if b == [] then a
    else if key(a[0]) - key(b[0]) <= 0 then [a[0]] + Merge(a[1..], b, key)
    else [b[0]] + Merge(a, b[1..], key)
  }

  function Min(x: nat, y: nat): nat { if x < y then x else y }

  /** One pass: neighbouring runs of k elements are merged. */
  function Pass<T>(s: seq<T>, k: nat, key: T -> int): (r: seq<T>)
    requires k > 0
    ensures |r| == |s|
    decreases |s|
  {
    if s == [] then []
    else
      var p, q := Min(k, |s|), Min(2 * k, |s|);
      Merge(s[..p], s[p..q], key) + Pass(s[q..], k, key)
  }

  /** Passes with doubling run length, until one merge takes in everything. */
  function Passes<T>(s: seq<T>, k: nat, key: T -> int): (r: seq<T>)
    requires k > 0
    ensures |r| == |s|
    decreases |s| - k
  {
    var t := Pass(s, k, key);
    if |s| <= 2 * k then t else Passes(t, 2 * k, key)
  }

  /** Every aligned run of k elements is sorted. */
  ghost predicate Runs<T>(s: seq<T>, k: nat, key: T -> int)
    requires k > 0
    decreases |s|
  {
    s != [] ==> Sorted(s[..Min(k, |s|)], key) && Runs(s[Min(k, |s|)..], k, key)
  }

  lemma ClassNil<T>(key: T -> int, v: int)
    ensures Class([], key, v) == []
  {
  }

  lemma {:induction false} ClassConcat<T>(a: seq<T>, b: seq<T>, key: T -> int, v: int)
    ensures Class(a + b, key, v) == Class(a, key, v) + Class(b, key, v)
  {
    hide Class;
    if a == [] {
      assert a + b == b;
      ClassNil(key, v);
    } else {
      ClassConcat(a[1..], b, key, v);
      ClassSplit(a, key, v);
      assert a + b == [a[0]] + (a[1..] + b);
      ClassCons(a[0], a[1..] + b, key, v);
    }
  }

  lemma ClassCons<T>(x: T, s: seq<T>, key: T -> int, v: int)
    ensures Class([x] + s, key, v) == (if key(x) == v then [x] else []) + Class(s, key, v)
  {
    assert ([x] + s)[1..] == s;
  }

  lemma ClassSplit<T>(s: seq<T>, key: T -> int, v: int)
    requires s != []
    ensures Class(s, key, v) == (if key(s[0]) == v then [s[0]] else []) + Class(s[1..], key, v)
  {
  }

  lemma {:induction false} ClassEmpty<T>(s: seq<T>, key: T -> int, v: int)
    requires forall i :: 0 <= i < |s| ==> key(s[i]) != v
    ensures Class(s, key, v) == []
  {
    if s != [] { ClassEmpty(s[1..], key, v); }
  }

  lemma HeadMultiset<T>(x: T, s: seq<T>)
    ensures multiset([x] + s) == multiset{x} + multiset(s)
  {
  }

  lemma MergeTurn<T>(a: seq<T>, b: seq<T>, key: T -> int)
    ensures Merge(a, b, key) ==
      if a == [] then b
      else if b == [] then a
      else if key(a[0]) - key(b[0]) <= 0 then [a[0]] + Merge(a[1..], b, key)
      else [b[0]] + Merge(a, b[1..], key)
  {
  }

  lemma {:induction false} MergePermutes<T>(a: seq<T>, b: seq<T>, key: T -> int)
    ensures multiset(Merge(a, b, key)) == multiset(a) + multiset(b)
    decreases |a| + |b|
  {
    hide Merge;
    MergeTurn(a, b, key);
    if a != [] && b != [] {
      if key(a[0]) - key(b[0]) <= 0 {
        MergePermutes(a[1..], b, key);
        assert a == [a[0]] + a[1..];
        HeadMultiset(a[0], a[1..]);
        HeadMultiset(a[0], Merge(a[1..], b, key));
      } else {
        MergePermutes(a, b[1..], key);
        assert b == [b[0]] + b[1..];
        HeadMultiset(b[0], b[1..]);
        HeadMultiset(b[0], Merge(a, b[1..], key));
      }
    }
  }

  lemma MergeMembers<T>(a: seq<T>, b: seq<T>, key: T -> int, x: T)
    requires x in Merge(a, b, key)
    ensures x in a || x in b
  {
    MergePermutes(a, b, key);
    assert x in multiset(Merge(a, b, key));
  }

  lemma SortedFrom<T>(s: seq<T>, key: T -> int)
    requires Sorted(s, key)
    ensures forall i :: 0 <= i < |s| ==> key(s[0]) <= key(s[i])
  {
  }

  lemma SortedTail<T>(s: seq<T>, key: T -> int)
    requires Sorted(s, key) && s != []
    ensures Sorted(s[1..], key)
  {
  }

  lemma SortedCons<T>(x: T, s: seq<T>, key: T -> int)
    requires Sorted(s, key) && forall y :: y in s ==> key(x) <= key(y)
    ensures Sorted([x] + s, key)
  {
    var t := [x] + s;
    forall i, j | 0 <= i < j < |t| ensures key(t[i]) <= key(t[j]) {
      assert t[j] == s[j - 1] && s[j - 1] in s;
    }
  }

  /** Merging sorted runs gives a sorted run ... */
  lemma {:induction false} MergeSorted<T>(a: seq<T>, b: seq<T>, key: T -> int)
    requires Sorted(a, key) && Sorted(b, key)
    ensures Sorted(Merge(a, b, key), key)
    decreases |a| + |b|
  {
    if a != [] && b != [] {
      var first := if key(a[0]) - key(b[0]) <= 0 then a[0] else b[0];
      var rest := if key(a[0]) - key(b[0]) <= 0 then Merge(a[1..], b, key) else Merge(a, b[1..], key);
      if key(a[0]) - key(b[0]) <= 0 {
        SortedTail(a, key);
        MergeSorted(a[1..], b, key);
      } else {
        SortedTail(b, key);
        MergeSorted(a, b[1..], key);
      }
      forall y | y in rest ensures key(first) <= key(y) {
        if key(a[0]) - key(b[0]) <= 0 { MergeMembers(a[1..], b, key, y); } else { MergeMembers(a, b[1..], key, y); }
        if y in a { var i :| 0 <= i < |a| && a[i] == y; assert i == 0 || key(a[0]) <= key(a[i]); }
        if y in b { var i :| 0 <= i < |b| && b[i] == y; assert i == 0 || key(b[0]) <= key(b[i]); }
      }
      SortedCons(first, rest, key);
    }
  }

  /** ... in which equal keys keep their order, those of the first run before those of the second. */
  lemma {:induction false} MergeStable<T>(a: seq<T>, b: seq<T>, key: T -> int, v: int)
    requires Sorted(a, key) && Sorted(b, key)
    ensures Class(Merge(a, b, key), key, v) == Class(a, key, v) + Class(b, key, v)
    decreases |a| + |b|
  {
    hide Class, Merge, Sorted;
    ClassNil(key, v);
    MergeTurn(a, b, key);
    if a != [] && b != [] {
      if key(a[0]) - key(b[0]) <= 0 {
        SortedTail(a, key);
        MergeStable(a[1..], b, key, v);
        ClassCons(a[0], Merge(a[1..], b, key), key, v);
        ClassSplit(a, key, v);
      } else {
        SortedTail(b, key);
        MergeStable(a, b[1..], key, v);
        ClassCons(b[0], Merge(a, b[1..], key), key, v);
        ClassSplit(b, key, v);
        if key(b[0]) == v {
          SortedFrom(a, key);
          ClassEmpty(a, key, v);
        }
      }
    }
  }

  lemma ThreeParts<T>(s: seq<T>, p: nat, q: nat)
    requires p <= q <= |s|
    ensures s == (s[..p] + s[p..q]) + s[q..]
    ensures multiset(s) == multiset(s[..p]) + multiset(s[p..q]) + multiset(s[q..])
  {
    assert s == (s[..p] + s[p..q]) + s[q..];
  }

  lemma {:induction false} PassPermutes<T>(s: seq<T>, k: nat, key: T -> int)
    requires k > 0
    ensures multiset(Pass(s, k, key)) == multiset(s)
    decreases |s|
  {
    hide Merge;
    if s != [] {
      var p, q := Min(k, |s|), Min(2 * k, |s|);
      MergePermutes(s[..p], s[p..q], key);
      PassPermutes(s[q..], k, key);
      ThreeParts(s, p, q);
    }
  }

  lemma FirstRun<T>(s: seq<T>, k: nat, key: T -> int)
    requires k > 0 && s != [] && Runs(s, k, key)
    ensures Sorted(s[..Min(k, |s|)], key) && Runs(s[Min(k, |s|)..], k, key)
  {
  }

  lemma SortedEmpty<T>(key: T -> int)
    ensures Sorted([], key)
  {
  }

  /** The first two runs, and the runs after them. */
  lemma TwoRuns<T>(s: seq<T>, k: nat, key: T -> int)
    requires k > 0 && s != [] && Runs(s, k, key)
    ensures
      var p, q := Min(k, |s|), Min(2 * k, |s|);
      Sorted(s[..p], key) && Sorted(s[p..q], key) && Runs(s[q..], k, key)
  {
    hide Sorted, Runs;
    var p, q := Min(k, |s|), Min(2 * k, |s|);
    FirstRun(s, k, key);
    var t, m := s[p..], q - p;
    SortedEmpty(key);
    if t != [] { FirstRun(t, k, key); }
    assert t[..m] == s[p..q];
    assert t[m..] == s[q..];
  }

  /** A pass doubles the length of the sorted runs. */
  lemma {:induction false} PassRuns<T>(s: seq<T>, k: nat, key: T -> int)
    requires k > 0 && Runs(s, k, key)
    ensures Runs(Pass(s, k, key), 2 * k, key)
    decreases |s|
  {
    if s != [] {
      var p, q := Min(k, |s|), Min(2 * k, |s|);
      var m, r := Merge(s[..p], s[p..q], key), Pass(s[q..], k, key);
      TwoRuns(s, k, key);
      MergeSorted(s[..p], s[p..q], key);
      PassRuns(s[q..], k, key);
      assert (m + r)[..q] == m && (m + r)[q..] == r;
    }
  }

  lemma {:induction false} PassStable<T>(s: seq<T>, k: nat, key: T -> int, v: int)
    requires k > 0 && Runs(s, k, key)
    ensures Class(Pass(s, k, key), key, v) == Class(s, key, v)
    decreases |s|
  {
    hide Class, Merge, Sorted, Runs;
    ClassNil(key, v);
    if s != [] {
      var p, q := Min(k, |s|), Min(2 * k, |s|);
      TwoRuns(s, k, key);
      MergeStable(s[..p], s[p..q], key, v);
      PassStable(s[q..], k, key, v);
      ClassConcat(Merge(s[..p], s[p..q], key), Pass(s[q..], k, key), key, v);
      ThreeParts(s, p, q);
      ClassConcat(s[..p] + s[p..q], s[q..], key, v);
      ClassConcat(s[..p], s[p..q], key, v);
      assert Pass(s, k, key) == Merge(s[..p], s[p..q], key) + Pass(s[q..], k, key);
    }
  }

  lemma {:induction false} OneRuns<T>(s: seq<T>, key: T -> int)
    ensures Runs(s, 1, key)
    decreases |s|
  {
    if s != [] { OneRuns(s[1..], key); }
  }

  /** Main result: the passes sort the sequence, permuting it and keeping equal keys in order. */
  lemma {:induction false} PassesSort<T>(s: seq<T>, k: nat, key: T -> int)
    requires k > 0 && Runs(s, k, key)
    ensures Sorted(Passes(s, k, key), key) && multiset(Passes(s, k, key)) == multiset(s)
    ensures forall v :: Class(Passes(s, k, key), key, v) == Class(s, key, v)
    decreases |s| - k
  {
    var t := Pass(s, k, key);
    PassPermutes(s, k, key);
    PassRuns(s, k, key);
    forall v ensures Class(t, key, v) == Class(s, key, v) { PassStable(s, k, key, v); }
    if |s| <= 2 * k {
      if t != [] { assert t[..Min(2 * k, |t|)] == t; }
    } else {
      PassesSort(t, 2 * k, key);
    }
  }

  lemma SameEmptiness<T>(r: seq<T>, t: seq<T>, key: T -> int)
    requires forall v :: Class(r, key, v) == Class(t, key, v)
    ensures r != [] ==> t != []
  {
    if r != [] {
      assert Class(r, key, key(r[0])) == Class(t, key, key(r[0]));
      assert |Class(r, key, key(r[0]))| > 0;
    }
  }

  /** A stable sort is determined by its result being sorted and its classes. */
  lemma {:induction false} StableSortUnique<T>(r: seq<T>, t: seq<T>, key: T -> int)
    requires Sorted(r, key) && Sorted(t, key) && forall v :: Class(r, key, v) == Class(t, key, v)
    ensures r == t
    decreases |r| + |t|
  {
    SameEmptiness(r, t, key);
    SameEmptiness(t, r, key);
    if r != [] {
      var v := if key(r[0]) <= key(t[0]) then key(r[0]) else key(t[0]);
      assert Class(r, key, v) == Class(t, key, v);
      if key(r[0]) != v { ClassEmpty(r, key, v); }
      if key(t[0]) != v { ClassEmpty(t, key, v); }
      assert r[0] == Class(r, key, v)[0] == Class(t, key, v)[0] == t[0];
      SortedTail(r, key);
      SortedTail(t, key);
      forall u ensures Class(r[1..], key, u) == Class(t[1..], key, u) {
        assert Class(r, key, u) == Class(t, key, u);
        var x := if key(r[0]) == u then [r[0]] else [];
        assert Class(r, key, u) == x + Class(r[1..], key, u);
        assert Class(t, key, u) == x + Class(t[1..], key, u);
        assert Class(r[1..], key, u) == Class(r, key, u)[|x|..];
      }
      StableSortUnique(r[1..], t[1..], key);
    }
  }

  ghost predicate StrictlySorted<T>(s: seq<T>, key: T -> int) {
    forall i, j :: 0 <= i < j < |s| ==> key(s[i]) < key(s[j])
  }

  /** A sequence in order of distinct keys is what sorting makes of any rearrangement of it. */
  lemma {:induction false} SortingRestores<T>(r: seq<T>, s: seq<T>, key: T -> int)
    requires Sorted(r, key) && StrictlySorted(s, key) && multiset(r) == multiset(s)
    ensures r == s
  {
    hide Sorted, StrictlySorted;
    SameCount(r, s);
    if s != [] {
      SameHead(r, s, key);
      assert r == [r[0]] + r[1..] && s == [s[0]] + s[1..];
      HeadMultiset(r[0], r[1..]);
      HeadMultiset(s[0], s[1..]);
      SameRest(r[0], multiset(r[1..]), multiset(s[1..]));
      SortedTail(r, key);
      StrictTail(s, key);
      SortingRestores(r[1..], s[1..], key);
    }
  }

  lemma SameCount<T>(r: seq<T>, s: seq<T>)
    requires multiset(r) == multiset(s)
    ensures |r| == |s|
  {
    assert |r| == |multiset(r)| == |multiset(s)| == |s|;
  }

  lemma SameRest<T>(x: T, a: multiset<T>, b: multiset<T>)
    requires multiset{x} + a == multiset{x} + b
    ensures a == b
  {
    assert a == (multiset{x} + a) - multiset{x};
    assert b == (multiset{x} + b) - multiset{x};
  }

  lemma StrictTail<T>(s: seq<T>, key: T -> int)
    requires StrictlySorted(s, key) && s != []
    ensures StrictlySorted(s[1..], key)
  {
  }

  lemma SameHead<T>(r: seq<T>, s: seq<T>, key: T -> int)
    requires Sorted(r, key) && StrictlySorted(s, key) && multiset(r) == multiset(s) && r != [] && s != []
    ensures r[0] == s[0]
  {
    hide Sorted, StrictlySorted;
    assert r[0] in multiset(r) && s[0] in multiset(s);
    var i :| 0 <= i < |s| && s[i] == r[0];
    var j :| 0 <= j < |r| && r[j] == s[0];
    SortedFrom(r, key);
    StrictFrom(s, key);
  }

  lemma StrictFrom<T>(s: seq<T>, key: T -> int)
    requires StrictlySorted(s, key)
    ensures forall i :: 0 < i < |s| ==> key(s[0]) < key(s[i])
  {
  }
}
