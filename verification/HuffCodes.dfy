/** Deriving the code words from the parent links, and their optimality. */
module HuffCodes {
  import opened Arith
  import opened Bits
  import opened HuffTree
  import opened HuffOptimal
  import opened HuffPrefix
  import opened HuffHeap
  import opened HuffForest
  import opened HuffBuild

  lemma WrapAdd(x: nat, y: nat)
    ensures (x % WORD + y % WORD) % WORD == (x + y) % WORD
    ensures (2 * (x % WORD)) % WORD == (2 * x) % WORD
  {
    var q, r := x / WORD, y / WORD;
    assert x + y == (q + r) * WORD + (x % WORD + y % WORD);
  }

  /** The code word of symbol m: its path, as a number and a length. */
  ghost predicate CodeOf(t: HTree, m: nat, code: nat, len: nat) {
    m in Ids(t) && code == Value(PathTo(t, m)) % WORD && len == |PathTo(t, m)|
  }

  /** What the climb from a leaf has gathered when it stands at node `cur`. */
  ghost predicate Climbing(t: HTree, link: seq<int>, m: nat, cur: nat, l: int, s: seq<bool>, x: nat, j: nat) {
    && WellNumbered(t) && Linked(link, t) && RootId(t) < 512 && link[RootId(t)] == 0
    && m in Ids(t) && cur in Ids(t) && cur < 512 && l == link[cur]
    && PathTo(t, m) == PathTo(t, cur) + s
    && x == Value(s) % WORD && j == Pow2(|s|) % WORD
  }

  lemma ClimbStart(t: HTree, link: seq<int>, m: nat, f: seq<nat>, occ: seq<nat>)
    requires Trie(t, f, link, occ) && m in occ
    ensures m < 256 && Climbing(t, link, m, m, link[m], [], 0, 1)
  {
    SymbolsAreIds(t);
  }

  /** One turn of the climb: the link's sign is the next bit, its magnitude the parent. */
  lemma ClimbStep(t: HTree, link: seq<int>, m: nat, cur: nat, l: int, s: seq<bool>, x: nat, j: nat)
    returns (s': seq<bool>)
    requires Climbing(t, link, m, cur, l, s, x, j) && l != 0
    ensures |link| == 512 && cur in Ids(t)
    ensures
      var up := if l < 0 then -l else l;
      && 256 <= up < 512 && up in Ids(t) && |PathTo(t, up)| < |PathTo(t, cur)|
      && |s'| == |s| + 1
      && Climbing(t, link, m, up, link[up], s', if l < 0 then (x + j) % WORD else x, (2 * j) % WORD)
  {
    var parent, bit := LinkStep(link, t, cur);
    s' := [bit] + s;
    assert PathTo(t, parent) + [bit] + s == PathTo(t, parent) + s';
    ValueCons(bit, s);
    WrapAdd(Value(s), Pow2(|s|));
    WrapAdd(Pow2(|s|), 0);
  }

  lemma ClimbEnd(t: HTree, link: seq<int>, m: nat, cur: nat, l: int, s: seq<bool>, x: nat, j: nat)
    requires Climbing(t, link, m, cur, l, s, x, j) && l == 0
    ensures CodeOf(t, m, x, |s|) && s == PathTo(t, m)
  {
    if cur != RootId(t) {
      var parent, bit := LinkStep(link, t, cur);
    } else {
      assert [] + s == s;
    }
  }

  /** The code of one symbol, read off the links from leaf to root. */
  method CodeWord(link: array<int>, m: nat, ghost t: HTree, ghost f: seq<nat>, ghost occ: seq<nat>)
    returns (x: nat, i: nat)
    requires Trie(t, f, link[..], occ) && m in occ
    ensures CodeOf(t, m, x, i) && x < WORD
  {
    hide Climbing, CodeOf, Trie;
    TrieSizes(t, f, link[..], occ);
    i := 0;
    var j: nat := 1;
    x := 0;
    ClimbStart(t, link[..], m, f, occ);
    var l := link[m];
    ghost var cur, s: seq<bool> := m, [];
    while l != 0
      invariant |s| == i && x < WORD && cur in Ids(t)
      invariant Climbing(t, link[..], m, cur, l, s, x, j)
      decreases |PathTo(t, cur)|
    {
      s := ClimbStep(t, link[..], m, cur, l, s, x, j);
      if l < 0 {
        x := (x + j) % WORD;
        l := -l;
      }
      cur := l;
      l := link[l];
      j := (2 * j) % WORD;
      i := i + 1;
    }
    ClimbEnd(t, link[..], m, cur, l, s, x, j);
  }

  lemma TrieSizes(t: HTree, f: seq<nat>, link: seq<int>, occ: seq<nat>)
    requires Trie(t, f, link, occ)
    ensures |f| == 512 && |link| == 512 && InTable(occ)
    ensures forall m :: m in occ ==> m in Ids(t) && m < 256 && m in Symbols(t)
    ensures RootId(t) in Ids(t)
  {
    SymbolsAreIds(t);
    IdsBound(t);
  }

  // ---- lengths ----

  lemma {:induction false} PathsWithinDepth(t: HTree, m: nat)
    requires WellNumbered(t) && m in Ids(t)
    ensures |PathTo(t, m)| <= Depth(t)
  {
    if RootId(t) != m {
      PathsWithinDepth(if m in Ids(t.zero) then t.zero else t.one, m);
    }
  }

  /** Some symbol has a code as long as the trie is deep. */
  lemma {:induction false} DepthReached(t: HTree) returns (m: nat)
    requires WellNumbered(t)
    ensures m in Symbols(t) && m in Ids(t) && |PathTo(t, m)| == Depth(t)
  {
    if t.Leaf? {
      m := t.sym;
    } else {
      SymbolsAreIds(t);
      m := DepthReached(Deeper(t));
      SymbolsAreIds(Deeper(t));
    }
  }

  lemma {:induction false} DepthBelowCount(t: HTree)
    ensures Depth(t) < |Symbols(t)|
  {
    if t.Fork? {
      DepthBelowCount(t.zero);
      DepthBelowCount(t.one);
    }
  }

  lemma {:induction false} SymbolsOnce(t: HTree)
    requires WellNumbered(t)
    ensures forall s :: multiset(Symbols(t))[s] <= 1
  {
    if t.Fork? {
      SymbolsOnce(t.zero);
      SymbolsOnce(t.one);
      SymbolsAreIds(t.zero);
      SymbolsAreIds(t.one);
      hide Symbols, Ids;
      var a, b := Symbols(t.zero), Symbols(t.one);
      forall s ensures multiset(a + b)[s] <= 1 {
        assert multiset(a + b)[s] == multiset(a)[s] + multiset(b)[s];
        assert s in multiset(a) ==> s in a;
        assert s in multiset(b) ==> s in b;
      }
    }
  }

  lemma OnceEach(a: seq<nat>, b: seq<nat>)
    requires forall s :: s in a <==> s in b
    requires (forall s :: multiset(a)[s] <= 1) && (forall s :: multiset(b)[s] <= 1)
    ensures multiset(a) == multiset(b)
  {
    forall s ensures multiset(a)[s] == multiset(b)[s] {
      assert s in multiset(a) <==> s in a;
      assert s in multiset(b) <==> s in b;
    }
  }

  /** The leaves are the occurring bytes, each once. */
  lemma LeavesAreOccurring(t: HTree, f: seq<nat>, link: seq<int>)
    requires |f| == 512 && Trie(t, f, link, Occurring(f, 256))
    ensures multiset(Symbols(t)) == multiset(Occurring(f, 256))
    ensures Depth(t) <= 255
  {
    SymbolsOnce(t);
    OccurringOnce(f, 256);
    OnceEach(Symbols(t), Occurring(f, 256));
    DepthBelowCount(t);
    assert |Symbols(t)| == |multiset(Symbols(t))| == |multiset(Occurring(f, 256))| == |Occurring(f, 256)|;
  }

  /** The tables are filled for the byte values below `k`. */
  ghost predicate Coded(t: HTree, occ: seq<nat>, code: seq<nat>, clen: seq<nat>, k: nat, maxx: nat, maxi: nat) {
    && |code| == |clen| == 256 && k <= 256
    && (forall m :: 0 <= m < k && m in occ ==> CodeOf(t, m, code[m], clen[m]) && clen[m] <= maxi)
    && (forall m :: 0 <= m < k && m !in occ ==> code[m] == 0 && clen[m] == 0)
    && (forall m :: 0 <= m < k ==> code[m] <= maxx)
    && (maxx == 0 || exists m :: 0 <= m < k && code[m] == maxx)
  }

  lemma CodedNext(t: HTree, occ: seq<nat>, code: seq<nat>, clen: seq<nat>, k: nat, maxx: nat, maxi: nat, x: nat, i: nat)
    requires Coded(t, occ, code, clen, k, maxx, maxi) && k < 256
    requires if k in occ then CodeOf(t, k, x, i) else x == 0 && i == 0
    ensures |code| == |clen| == 256
    ensures Coded(t, occ, code[k := x], clen[k := i], k + 1, if x > maxx then x else maxx, if i > maxi then i else maxi)
  {
    hide CodeOf;
    var code', clen' := code[k := x], clen[k := i];
    if x <= maxx && maxx != 0 {
      var m :| 0 <= m < k && code[m] == maxx;
      assert code'[m] == maxx;
    } else {
      assert code'[k] == x;
    }
  }

  /** Generates all code words; `maxx` is the largest code, `maxi` the greatest length. */
  method GenerateCodes(freq: array<nat>, link: array<int>, code: array<nat>, clen: array<nat>,
                       ghost t: HTree, ghost f: seq<nat>)
    returns (maxx: nat, maxi: nat)
    requires freq.Length == 512 && code.Length == 256 && clen.Length == 256
    requires code != clen && code != freq && clen != freq
    requires |f| == 512 && freq[..256] == f[..256] && Trie(t, f, link[..], Occurring(f, 256))
    modifies code, clen
    ensures Coded(t, Occurring(f, 256), code[..], clen[..], 256, maxx, maxi) && maxi == Depth(t)
  {
    hide CodeOf, Trie, Occurring, Depth, Coded;
    ghost var occ := Occurring(f, 256);
    TrieSizes(t, f, link[..], occ);
    LeavesAreOccurring(t, f, link[..]);
    OccurringAll(f, 256);
    maxx, maxi := 0, 0;
    var m := 0;
    CodedNone(t, occ, code[..], clen[..]);
    while m < 256
      invariant 0 <= m <= 256 && freq[..256] == f[..256] && maxi <= Depth(t)
      invariant Coded(t, occ, code[..], clen[..], m, maxx, maxi)
    {
      assert freq[m] == freq[..256][m] == f[..256][m] == f[m];
      ghost var c: seq<nat>, l: seq<nat> := code[..], clen[..];
      if freq[m] == 0 {
        CodedNext(t, occ, c, l, m, maxx, maxi, 0, 0);
        code[m], clen[m] := 0, 0;
        assert code[..] == c[m := 0] && clen[..] == l[m := 0];
      } else {
        assert m in occ;
        var x, i := CodeWord(link, m, t, f, occ);
        CodeWithinDepth(t, m, x, i, f, link[..], occ);
        CodedNext(t, occ, c, l, m, maxx, maxi, x, i);
        code[m] := x;
        clen[m] := i % 256;
        assert code[..] == c[m := x] && clen[..] == l[m := i];
        if x > maxx { maxx := x; }
        if i > maxi { maxi := i; }
      }
      m := m + 1;
    }
    DeepestCode(t, f, link[..], occ, clen[..], code[..], maxx, maxi);
  }

  lemma CodedNone(t: HTree, occ: seq<nat>, code: seq<nat>, clen: seq<nat>)
    requires |code| == |clen| == 256
    ensures Coded(t, occ, code, clen, 0, 0, 0)
  {
  }

  lemma CodeWithinDepth(t: HTree, m: nat, x: nat, i: nat, f: seq<nat>, link: seq<int>, occ: seq<nat>)
    requires Trie(t, f, link, occ) && CodeOf(t, m, x, i)
    ensures i <= Depth(t)
  {
    PathsWithinDepth(t, m);
  }

  lemma DeepestCode(t: HTree, f: seq<nat>, link: seq<int>, occ: seq<nat>, clen: seq<nat>, code: seq<nat>, maxx: nat,
                    maxi: nat)
    requires Trie(t, f, link, occ) && Coded(t, occ, code, clen, 256, maxx, maxi)
    ensures Depth(t) <= maxi
  {
    var m := DepthReached(t);
    SymbolsAreIds(t);
    assert m in occ && m < 256;
    assert CodeOf(t, m, code[m], clen[m]);
  }

  // ---- optimality ----

  /** Sum of frequency times code length over the symbols `ss`. */
  ghost function CodeBits(f: seq<nat>, t: HTree, ss: seq<nat>): nat
    requires |f| == 512 && InTable(ss) && forall s :: s in ss ==> s in Ids(t)
  {
    if ss == [] then 0 else f[ss[0]] * |PathTo(t, ss[0])| + CodeBits(f, t, ss[1..])
  }

  lemma {:induction false} CodeBitsConcat(f: seq<nat>, t: HTree, a: seq<nat>, b: seq<nat>)
    requires |f| == 512 && InTable(a) && InTable(b) && InTable(a + b)
    requires forall s :: s in a + b ==> s in Ids(t)
    requires (forall s :: s in a ==> s in Ids(t)) && (forall s :: s in b ==> s in Ids(t))
    ensures CodeBits(f, t, a + b) == CodeBits(f, t, a) + CodeBits(f, t, b)
  {
    if a == [] {
      assert a + b == b;
    } else {
      assert (a + b)[1..] == a[1..] + b;
      InTableParts(a[1..], b);
      CodeBitsConcat(f, t, a[1..], b);
    }
  }

  /** Seen from one fork higher, every code is one bit longer. */
  lemma {:induction false} CodeBitsLonger(f: seq<nat>, t: HTree, c: HTree, ss: seq<nat>)
    requires |f| == 512 && InTable(ss) && WellNumbered(t) && t.Fork? && (c == t.zero || c == t.one)
    requires (forall s :: s in ss ==> s in Ids(c)) && (forall s :: s in ss ==> s in Ids(t))
    ensures CodeBits(f, t, ss) == CodeBits(f, c, ss) + Sum(Pick(f, ss))
  {
    if ss != [] {
      CodeBitsLonger(f, t, c, ss[1..]);
      assert Pick(f, ss)[1..] == Pick(f, ss[1..]);
      assert ss[0] in ss && |PathTo(t, ss[0])| == 1 + |PathTo(c, ss[0])|;
      assert f[ss[0]] * (1 + |PathTo(c, ss[0])|) == f[ss[0]] + f[ss[0]] * |PathTo(c, ss[0])|;
    }
  }

  lemma {:induction false} WeightIsSum(f: seq<nat>, t: HTree)
    requires |f| == 512 && WellNumbered(t)
    ensures InTable(Symbols(t)) && Weight(f, t) == Sum(Pick(f, Symbols(t)))
  {
    match t
    case Leaf(s) => assert Pick(f, [s]) == [f[s]]; assert [f[s]][1..] == [];
    case Fork(_, z, o) =>
      WeightIsSum(f, z);
      WeightIsSum(f, o);
      InTableParts(Symbols(z), Symbols(o));
      PickConcat(f, Symbols(z), Symbols(o));
      SumConcat(Pick(f, Symbols(z)), Pick(f, Symbols(o)));
  }

  /** The weighted path length counts every code bit once. */
  lemma {:induction false} PathCostIsCodeBits(f: seq<nat>, t: HTree)
    requires |f| == 512 && WellNumbered(t)
    ensures InTable(Symbols(t)) && (forall s :: s in Symbols(t) ==> s in Ids(t))
    ensures PathCost(f, t) == CodeBits(f, t, Symbols(t))
  {
    hide CodeBits, InTable, Weight, PathTo, Pick, Sum;
    SymbolsAreIds(t);
    WeightIsSum(f, t);
    if t.Fork? {
      var z, o := t.zero, t.one;
      PathCostIsCodeBits(f, z);
      PathCostIsCodeBits(f, o);
      WeightIsSum(f, z);
      WeightIsSum(f, o);
      CodeBitsLonger(f, t, z, Symbols(z));
      CodeBitsLonger(f, t, o, Symbols(o));
      CodeBitsConcat(f, t, Symbols(z), Symbols(o));
    } else {
      LeafCodeBits(f, t);
    }
  }

  lemma LeafCodeBits(f: seq<nat>, t: HTree)
    requires |f| == 512 && t.Leaf? && t.sym < 512
    ensures InTable(Symbols(t)) && CodeBits(f, t, Symbols(t)) == 0
  {
    var ss := Symbols(t);
    assert ss == [t.sym] && ss[1..] == [];
    assert CodeBits(f, t, ss[1..]) == 0;
  }

  lemma {:induction false} CodeBitsIsPick(f: seq<nat>, t: HTree, table: seq<nat>, ss: seq<nat>)
    requires |f| == |table| == 512 && InTable(ss) && forall s :: s in ss ==> s in Ids(t)
    requires forall s :: s in ss ==> table[s] == f[s] * |PathTo(t, s)|
    ensures CodeBits(f, t, ss) == Sum(Pick(table, ss))
  {
    if ss != [] {
      CodeBitsIsPick(f, t, table, ss[1..]);
      assert ss[0] in ss && Pick(table, ss)[1..] == Pick(table, ss[1..]);
    }
  }

  ghost function BitsTable(f: seq<nat>, t: HTree): (r: seq<nat>)
    requires |f| == 512
    ensures |r| == 512 && forall s :: 0 <= s < 512 && s in Ids(t) ==> r[s] == f[s] * |PathTo(t, s)|
  {
    seq(512, s requires 0 <= s < 512 => if s in Ids(t) then f[s] * |PathTo(t, s)| else 0)
  }

  lemma CodeBitsPerm(f: seq<nat>, t: HTree, a: seq<nat>, b: seq<nat>)
    requires |f| == 512 && InTable(a) && InTable(b) && multiset(a) == multiset(b)
    requires (forall s :: s in a ==> s in Ids(t)) && (forall s :: s in b ==> s in Ids(t))
    ensures CodeBits(f, t, a) == CodeBits(f, t, b)
  {
    hide CodeBits, Pick, Sum, Ids, PathTo;
    var table := BitsTable(f, t);
    CodeBitsIsPick(f, t, table, a);
    CodeBitsIsPick(f, t, table, b);
    PickPerm(table, a, b);
  }

  /** The code words, symbol by symbol. */
  ghost function Words(t: HTree, occ: seq<nat>): seq<seq<bool>>
    requires forall s :: s in occ ==> s in Ids(t)
  {
    seq(|occ|, i requires 0 <= i < |occ| => PathTo(t, occ[i]))
  }

  lemma {:induction false} CodeBitsIsCost(f: seq<nat>, t: HTree, occ: seq<nat>)
    requires |f| == 512 && InTable(occ) && forall s :: s in occ ==> s in Ids(t)
    ensures CodeBits(f, t, occ) == Cost(Pick(f, occ), Lengths(Words(t, occ)))
  {
    if occ != [] {
      var p := Products(Pick(f, occ), Lengths(Words(t, occ)));
      CodeBitsIsCost(f, t, occ[1..]);
      assert p[1..] == Products(Pick(f, occ[1..]), Lengths(Words(t, occ[1..])));
    }
  }

  /** The weighted length of the words is the greedy cost of the counts. */
  lemma WordsCost(t: HTree, f: seq<nat>, link: seq<int>)
    requires |f| == 512 && Trie(t, f, link, Occurring(f, 256))
    ensures forall s :: s in Occurring(f, 256) ==> s in Ids(t) && s in Symbols(t)
    ensures PrefixFree(Words(t, Occurring(f, 256)))
    ensures Cost(Pick(f, Occurring(f, 256)), Lengths(Words(t, Occurring(f, 256))))
         == HuffCost(Sorted(Pick(f, Occurring(f, 256))))
  {
    var occ := Occurring(f, 256);
    TrieSizes(t, f, link, occ);
    LeavesAreOccurring(t, f, link);
    PathCostIsCodeBits(f, t);
    CodeBitsPerm(f, t, occ, Symbols(t));
    CodeBitsIsCost(f, t, occ);
    WordsPrefixFree(t, f, occ);
  }

  /** Main result on the codes: they are prefix-free, and no prefix-free assignment of words to
      the same symbols encodes text of these frequencies in fewer bits. */
  lemma CodesAreOptimal(t: HTree, f: seq<nat>, link: seq<int>, alt: seq<seq<bool>>)
    requires |f| == 512 && Trie(t, f, link, Occurring(f, 256))
    requires |alt| == |Occurring(f, 256)| && PrefixFree(alt)
    ensures forall s :: s in Occurring(f, 256) ==> s in Ids(t)
    ensures PrefixFree(Words(t, Occurring(f, 256)))
    ensures Cost(Pick(f, Occurring(f, 256)), Lengths(Words(t, Occurring(f, 256))))
         <= Cost(Pick(f, Occurring(f, 256)), Lengths(alt))
  {
    WordsCost(t, f, link);
    NoPrefixCodeIsShorter(Pick(f, Occurring(f, 256)), alt);
  }

  lemma WordsPrefixFree(t: HTree, f: seq<nat>, occ: seq<nat>)
    requires |f| == 512 && occ == Occurring(f, 256) && WellNumbered(t)
    requires forall s :: s in occ ==> s in Ids(t) && s in Symbols(t)
    ensures PrefixFree(Words(t, occ))
  {
    OccurringOnce(f, 256);
    var ws := Words(t, occ);
    forall i, j | 0 <= i < |ws| && 0 <= j < |ws| && i != j ensures !(ws[i] <= ws[j]) {
      assert multiset(occ)[occ[i]] <= 1;
      if ws[i] <= ws[j] {
        PathsPrefixFree(t, occ[i], occ[j]);
        TwiceCounts(occ, i, j);
      }
    }
  }

  lemma TwiceCounts(s: seq<nat>, i: nat, j: nat)
    requires i < |s| && j < |s| && i != j && s[i] == s[j]
    ensures multiset(s)[s[i]] >= 2
  {
    var a, b := if i < j then i else j, if i < j then j else i;
    assert s == s[..a] + [s[a]] + s[a + 1..b] + [s[b]] + s[b + 1..];
  }

  // ---- depth against length of the data ----

  /** Summing a table over the occurring byte values misses only zeros. */
  lemma {:induction false} PickOccurring(f: seq<nat>, g: seq<nat>, m: nat)
    requires |f| == |g| == 512 && m <= 256 && forall c :: 0 <= c < 256 && f[c] == 0 ==> g[c] == 0
    ensures Sum(Pick(g, Occurring(f, m))) == Sum(g[..m])
  {
    if m > 0 {
      PickOccurring(f, g, m - 1);
      assert g[..m] == g[..m - 1] + [g[m - 1]];
      SumConcat(g[..m - 1], [g[m - 1]]);
      assert [g[m - 1]][1..] == [];
      if f[m - 1] > 0 {
        PickConcat(g, Occurring(f, m - 1), [m - 1]);
        assert Pick(g, [m - 1]) == [g[m - 1]];
        SumConcat(Pick(g, Occurring(f, m - 1)), [g[m - 1]]);
      }
    }
  }

  ghost function Counts(data: seq<byte>): seq<nat> { seq(256, c requires 0 <= c < 256 => Count(data, c)) }

  lemma {:induction false} CountsSum(data: seq<byte>)
    ensures Sum(Counts(data)) == |data|
  {
    if data == [] {
      AllZero(Counts(data));
    } else {
      var d, c := data[..|data| - 1], data[|data| - 1];
      CountsSum(d);
      SumUpdate(Counts(d), c, Count(d, c) + 1);
      assert Counts(data) == Counts(d)[c := Count(d, c) + 1];
    }
  }

  lemma {:induction false} AllZero(s: seq<nat>)
    requires forall i :: 0 <= i < |s| ==> s[i] == 0
    ensures Sum(s) == 0
  {
    if s != [] { AllZero(s[1..]); }
  }

  lemma {:induction false} OccurOfSymbols(f: seq<nat>, t: HTree)
    requires |f| == 512 && forall s :: s in Symbols(t) ==> s < 256 && f[s] > 0
    ensures AllOccur(f, t)
  {
    if t.Fork? {
      assert forall s :: s in Symbols(t.zero) || s in Symbols(t.one) ==> s in Symbols(t);
      OccurOfSymbols(f, t.zero);
      OccurOfSymbols(f, t.one);
    }
  }

  /** A code of d bits needs at least Fibonacci(d+2) bytes of data. */
  lemma LongCodesNeedLongData(t: HTree, f: seq<nat>, link: seq<int>, data: seq<byte>)
    requires |f| == 512 && Trie(t, f, link, Occurring(f, 256)) && f[..256] == Counts(data)
    ensures |data| >= Fib(Depth(t) + 2)
  {
    var occ := Occurring(f, 256);
    TrieSizes(t, f, link, occ);
    LeavesAreOccurring(t, f, link);
    OccurOfSymbols(f, t);
    DeepIsHeavy(f, t);
    WeightIsSum(f, t);
    PickPerm(f, occ, Symbols(t));
    PickOccurring(f, f, 256);
    CountsSum(data);
  }

  lemma {:induction false} FibGrows(a: nat, b: nat)
    requires 1 <= a <= b
    ensures Fib(a) <= Fib(b)
  {
    if a < b { FibGrows(a, b - 1); }
  }

  lemma FibAt34()
    ensures Fib(33) == 3524578 && Fib(34) == 5702887
  {
    assert Fib(2) == 1 && Fib(3) == 2 && Fib(4) == 3;
    assert Fib(5) == 5 && Fib(6) == 8 && Fib(7) == 13;
    assert Fib(8) == 21 && Fib(9) == 34 && Fib(10) == 55;
    assert Fib(11) == 89 && Fib(12) == 144 && Fib(13) == 233;
    assert Fib(14) == 377 && Fib(15) == 610 && Fib(16) == 987;
    assert Fib(17) == 1597 && Fib(18) == 2584 && Fib(19) == 4181;
    assert Fib(20) == 6765 && Fib(21) == 10946 && Fib(22) == 17711;
    assert Fib(23) == 28657 && Fib(24) == 46368 && Fib(25) == 75025;
    assert Fib(26) == 121393 && Fib(27) == 196418 && Fib(28) == 317811;
    assert Fib(29) == 514229 && Fib(30) == 832040 && Fib(31) == 1346269;
    assert Fib(32) == 2178309 && Fib(33) == 3524578 && Fib(34) == 5702887;
  }

  /** So buffers below 5702887 bytes have no code longer than 31 bits. */
  lemma ShortDataShortCodes(t: HTree, f: seq<nat>, link: seq<int>, data: seq<byte>)
    requires |f| == 512 && Trie(t, f, link, Occurring(f, 256)) && f[..256] == Counts(data)
    requires |data| < 5702887
    ensures Depth(t) <= 31
  {
    hide Fib, Trie, Depth;
    LongCodesNeedLongData(t, f, link, data);
    FibAt34();
    if Depth(t) >= 32 {
      FibGrows(34, Depth(t) + 2);
    }
  }
}
