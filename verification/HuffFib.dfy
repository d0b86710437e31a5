/** A buffer whose longest code has exactly 32 bits: each byte value occurs as often as the next
    Fibonacci number says. */
module HuffFib {
  import opened Bits
  import opened HuffTree
  import opened HuffOptimal
  import opened HuffPrefix
  import opened HuffForest
  import opened HuffBuild
  import opened HuffCodes
  import opened HuffBench

  /** Byte value i occurs Fib(i + 1) times, for the first n values. */
  function FibData(n: nat): seq<byte>
    requires n <= 256
  {
    if n == 0 then [] else FibData(n - 1) + Copies(Fib(n), n - 1)
  }

  function Copies(k: nat, c: byte): (r: seq<byte>)
    ensures |r| == k
  {
    seq(k, _ => c)
  }

  lemma {:induction false} CountCopies(d: seq<byte>, k: nat, c: byte, x: nat)
    ensures Count(d + Copies(k, c), x) == Count(d, x) + (if x == c then k else 0)
  {
    if k == 0 {
      assert d + Copies(0, c) == d;
    } else {
      var s := d + Copies(k, c);
      assert s[..|s| - 1] == d + Copies(k - 1, c);
      CountCopies(d, k - 1, c, x);
    }
  }

  lemma {:induction false} FibCount(n: nat, x: nat)
    requires n <= 256
    ensures Count(FibData(n), x) == if x < n then Fib(x + 1) else 0
  {
    hide Fib, Count;
    if n == 0 {
      CountNone(x);
    } else {
      FibCount(n - 1, x);
      CountCopies(FibData(n - 1), Fib(n), n - 1, x);
    }
  }

  lemma CountNone(x: nat)
    ensures Count([], x) == 0
  {
  }

  lemma {:induction false} FibDataLength(n: nat)
    requires n <= 256
    ensures |FibData(n)| + 1 == Fib(n + 2)
  {
    if n > 0 { FibDataLength(n - 1); }
  }

  // ---- the weights ----

  /** n Fibonacci numbers, from number k on. */
  function Fibs(k: nat, n: nat): (r: seq<nat>)
    ensures |r| == n && forall i :: 0 <= i < n ==> r[i] == Fib(k + i)
    decreases n
  {
    if n == 0 then [] else [Fib(k)] + Fibs(k + 1, n - 1)
  }

  function Upto(n: nat): (r: seq<nat>)
    ensures |r| == n
  {
    seq(n, i requires 0 <= i < n => i)
  }

  lemma FibPositive(k: nat)
    requires k >= 1
    ensures Fib(k) >= 1
  {
    FibGrows(1, k);
  }

  lemma {:induction false} FibOccurring(f: seq<nat>, n: nat, m: nat)
    requires |f| == 512 && m <= 256 && n <= 256 && forall c :: 0 <= c < 256 ==> f[c] == if c < n then Fib(c + 1) else 0
    ensures Occurring(f, m) == Upto(if m < n then m else n)
  {
    hide Fib;
    if m > 0 {
      FibOccurring(f, n, m - 1);
      if m - 1 < n {
        FibPositive(m);
        assert Upto(m) == Upto(m - 1) + [m - 1];
      }
    }
  }

  lemma FibStep(k: nat)
    ensures Fib(k + 2) == Fib(k + 1) + Fib(k)
  {
  }

  /** The next merge: the sum goes right behind the smallest weight left. */
  lemma InsertSum(k: nat, v: nat, n: nat)
    requires n > 0 && Fib(k) <= v <= Fib(k + 1)
    ensures Insert(Fibs(k, n), v) == [Fib(k), v] + Fibs(k + 1, n - 1)
  {
    hide Fib;
    var s := Fibs(k, n);
    assert s == [Fib(k)] + Fibs(k + 1, n - 1);
    assert s[0] == Fib(k);
    if v > Fib(k) {
      assert s[1..] == Fibs(k + 1, n - 1);
      assert n > 1 ==> s[1..][0] == Fib(k + 1);
      assert Place(s[1..], v) == 0;
    }
  }

  /** One more of the rarer symbols makes every one of the merges weigh one more. */
  lemma {:induction false} OneMore(k: nat, s: nat, n: nat)
    requires k >= 2 && Fib(k) <= s && s + 1 <= Fib(k + 1)
    ensures HuffCost([Fib(k), s + 1] + Fibs(k + 1, n)) == HuffCost([Fib(k), s] + Fibs(k + 1, n)) + n + 1
    decreases n
  {
    hide Fib, Fibs, HuffCost, Insert;
    var a, b := [Fib(k), s] + Fibs(k + 1, n), [Fib(k), s + 1] + Fibs(k + 1, n);
    assert a[2..] == b[2..] == Fibs(k + 1, n);
    CostStep(a);
    CostStep(b);
    var v := Fib(k) + s;
    if n == 0 {
      CostEnd(v);
      CostEnd(v + 1);
    } else {
      FibStep(k);
      FibStep(k - 1);
      FibGrows(k - 1, k);
      InsertSum(k + 1, v, n);
      InsertSum(k + 1, v + 1, n);
      OneMore(k + 1, v, n - 1);
    }
  }

  lemma CostStep(ws: seq<nat>)
    requires |ws| >= 2
    ensures HuffCost(ws) == ws[0] + ws[1] + HuffCost(Insert(ws[2..], ws[0] + ws[1]))
  {
  }

  lemma CostEnd(v: nat)
    ensures HuffCost(Insert([], v)) == 0
  {
  }

  lemma FibsAscend(k: nat, n: nat)
    requires k >= 1
    ensures Ascending(Fibs(k, n))
  {
    hide Fib;
    var s := Fibs(k, n);
    forall i, j | 0 <= i < j < n ensures s[i] <= s[j] { FibGrows(k + i, k + j); }
  }

  lemma FirstFibs()
    ensures Fib(1) == Fib(2) == 1 && Fib(3) == 2
  {
  }

  lemma OneTwo(rest: seq<nat>)
    requires Ascending(rest) && forall x :: x in rest ==> x >= 2
    ensures Ascending([1, 2] + rest) && multiset([1, 2] + rest) == multiset([2, 1] + rest)
  {
    var u := [1, 2] + rest;
    forall i, j | 0 <= i < j < |u| ensures u[i] <= u[j] {
      if i < 2 && j >= 2 { assert u[j] in rest; }
    }
    assert [1, 2] + rest == [1] + [2] + rest && [2, 1] + rest == [2] + [1] + rest;
  }

  /** The greedy cost of the Fibonacci weights grows by n - 1 when the first weight grows by one. */
  lemma FibCost(n: nat)
    requires n >= 2
    ensures HuffCost(Sorted(Fibs(1, n)[0 := 2])) == HuffCost(Sorted(Fibs(1, n))) + n - 1
  {
    hide Fib, Fibs, HuffCost, Sorted;
    FirstFibs();
    var w := Fibs(1, n);
    var rest := Fibs(3, n - 2);
    assert w == [1, 1] + rest;
    assert w[0 := 2] == [2, 1] + rest;
    FibsAscend(1, n);
    AscendingUnique(Sorted(w), w);
    FibsAscend(3, n - 2);
    forall x | x in rest ensures x >= 2 {
      var i :| 0 <= i < |rest| && rest[i] == x;
      FibGrows(3, 3 + i);
    }
    OneTwo(rest);
    AscendingUnique(Sorted([2, 1] + rest), [1, 2] + rest);
    OneMore(2, 1, n - 2);
  }

  // ---- the trie ----

  lemma LongerByOne(ws: seq<nat>, ls: seq<nat>, v: nat)
    requires |ws| == |ls| >= 1 && v == ws[0] + 1
    ensures Cost(ws[0 := v], ls) == Cost(ws, ls) + ls[0]
  {
    var p, q := Products(ws, ls), Products(ws[0 := v], ls);
    assert q == p[0 := v * ls[0]];
    SumUpdate(p, 0, v * ls[0]);
    assert v * ls[0] == ws[0] * ls[0] + ls[0];
  }

  /** Every trie the routine may build for the Fibonacci buffer of n values is as deep as can be. */
  lemma FibDepth(t: HTree, n: nat)
    requires 2 <= n <= 256 && TrieFor(t, FibData(n))
    ensures Depth(t) == n - 1
  {
    hide Fib, Fibs, FibData, HuffCost, Sorted, Trie, Cost, Words, Depth, Symbols, Ids, Occurring, Count, PrefixFree;
    FibDataLength(n);
    FibStep(n);
    FibPositive(n);
    FibPositive(n + 1);
    var d := FibData(n);
    assert |d| > 0;
    var f, link :| |f| == 512 && Trie(t, f, link, Occurring(f, 256)) && f[..256] == Counts(d);
    forall c | 0 <= c < 256 ensures f[c] == if c < n then Fib(c + 1) else 0 {
      assert f[c] == f[..256][c];
      FibCount(n, c);
    }
    FibOccurring(f, n, 256);
    var occ := Upto(n);
    WordsCost(t, f, link);
    var w := Pick(f, occ);
    assert w == Fibs(1, n);
    var ls := Lengths(Words(t, occ));
    WordsLength(t, occ);
    FirstFibs();
    assert w[0] == 1;
    FibCost(n);
    NoPrefixCodeIsShorter(w[0 := 2], Words(t, occ));
    LongerByOne(w, ls, 2);
    assert ls[0] >= n - 1;
    FirstWordLength(t, f, link, occ);
    LeavesAreOccurring(t, f, link);
    SymbolCount(t, occ);
  }

  lemma WordsLength(t: HTree, occ: seq<nat>)
    requires forall s :: s in occ ==> s in Ids(t)
    ensures |Words(t, occ)| == |occ|
  {
  }

  lemma FirstWordLength(t: HTree, f: seq<nat>, link: seq<int>, occ: seq<nat>)
    requires Trie(t, f, link, occ) && occ != [] && forall s :: s in occ ==> s in Ids(t)
    ensures Lengths(Words(t, occ))[0] <= Depth(t)
  {
    PathsWithinDepth(t, occ[0]);
  }

  lemma SymbolCount(t: HTree, occ: seq<nat>)
    requires multiset(Symbols(t)) == multiset(occ)
    ensures Depth(t) < |occ|
  {
    DepthBelowCount(t);
    assert |Symbols(t)| == |multiset(Symbols(t))| == |multiset(occ)| == |occ|;
  }

  /** So there is a buffer, of 9227464 bytes with 33 values, that the routine does not restore. */
  lemma SomeBufferIsLost(t: HTree, n: nat)
    requires n == 33 && TrieFor(t, FibData(n))
    ensures Depth(t) == 32 && |FibData(n)| == 9227464
  {
    hide FibData, Fib, Depth, TrieFor;
    FibDepth(t, n);
    FibDataLength(n);
    FibAt34();
    FibStep(33);
  }

  /** The routine on that buffer: it reads outside its arrays or leaves other data than it was given. */
  method LoseFibonacci(data: array<byte>, ghost n: nat) returns (outcome: Outcome)
    requires n == 33 && data[..] == FibData(n)
    modifies data
    ensures outcome == RanOutside || data[..] != FibData(n)
  {
    hide FibData, Depth, TrieFor;
    ghost var t;
    outcome, t := CompDecomp(data);
    SomeBufferIsLost(t, n);
  }
}
