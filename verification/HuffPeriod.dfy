/** The first code word of 32 bits in a stream is found only where its table number is the path that its
    own first bits spell. Such a word repeats itself, and that leaves no room for the trie. */
module HuffPeriod {
  import opened Bits
  import opened HuffTree
  import opened HuffNodes
  import opened HuffNumber
  import opened HuffWrap

  // ---- listed paths of up to 30 bits are found only by reading them ----

  lemma ShortListed(t: HTree, v: seq<bool>)
    requires AllFound(t) && Listed(t, HeapNumber(v)) && |v| <= 30
    ensures Emits(t, v)
  {
    hide HeapNumber, AllFound, Emits, Listed;
    ShortNumber(v);
    var u := ShortFound(t, v);
  }

  /** So none of them begins another. */
  lemma OneListed(t: HTree, v: seq<bool>, w: seq<bool>)
    requires AllFound(t) && Listed(t, HeapNumber(v)) && Listed(t, HeapNumber(w)) && v <= w && 1 <= |v| && |w| <= 30
    ensures v == w
  {
    hide HeapNumber, AllFound, Listed, Silent, Number;
    ShortListed(t, w);
    var p := w[..|w| - 1];
    if |v| <= |p| {
      assert p[..|v|] == v;
      NotListed(t, p, |v|);
    }
  }

  /** A path below a listed one is not read directly. */
  lemma BelowListed(t: HTree, v: seq<bool>, w: seq<bool>)
    requires AllFound(t) && Listed(t, HeapNumber(v)) && v <= w && 1 <= |v| < |w| <= 31
    ensures !Emits(t, w)
  {
    hide HeapNumber, AllFound, Listed, Silent, Number;
    var p := w[..|w| - 1];
    assert p[..|v|] == v;
    if Silent(t, p) { NotListed(t, p, |v|); }
  }

  // ---- how a run comes to the paths below a table number ----

  /** A deep run to a path below the number of x went through x. */
  lemma Through(t: HTree, x: seq<bool>, u: seq<bool>) returns (l: nat)
    requires AllFound(t) && LeafPath(t, x) && |x| == 32 && |Strip(x)| <= 30 && Deep(t, u)
    requires Strip(x) <= Tail(u) && (|Tail(u)| == 31 ==> !Listed(t, HeapNumber(Tail(u))))
    ensures l < |u| && Deep(t, u[..l]) && Tail(u[..l]) == x[..31]
  {
    hide HeapNumber, AllFound, Listed, Strip, Number, LeafPath, Inner;
    LongLeaf(t, x);
    var v := Tail(u);
    assert v[..|Strip(x)|] == Strip(x);
    if |u| == 31 { TailShort(u); }
    var e, x' := Back(t, u);
    LongLeaf(t, x');
    assert v[..|Strip(x')|] == Strip(x');
    assert Strip(x) <= Strip(x');
    assert v[..|v|] == v;
    OneListed(t, Strip(x), Strip(x'));
    SameNumber(t, x, x');
    l := e - 1;
  }

  /** A listed path of at most 31 bits below the number of x is found only by a run through x. */
  lemma ListedThrough(t: HTree, x: seq<bool>, v: seq<bool>) returns (u: seq<bool>, l: nat)
    requires AllFound(t) && LeafPath(t, x) && |x| == 32 && Strip(x) <= v && |Strip(x)| < |v| <= 31
    requires Listed(t, HeapNumber(v))
    ensures |v| == 31 && Emits(t, u) && l < |u| && Number(u) == HeapNumber(v) && Deep(t, u[..l])
      && Tail(u[..l]) == x[..31]
  {
    hide HeapNumber, AllFound, Listed, Strip, Number, LeafPath, Inner, Emits;
    LongLeaf(t, x);
    ShortNumber(v);
    u := ShortFound(t, v);
    BelowListed(t, Strip(x), v);
    var p := u[..|u| - 1];
    DeepUpTo(t, u, |p|);
    LastBit(t, u);
    HeapNumberInjective(Tail(u), v);
    assert Tail(p) == v[..|v| - 1];
    l := Through(t, x, p);
    assert p[..l] == u[..l];
  }

  /** A 31-bit path that no run comes to, and that is the number of no code word. */
  ghost predicate Dead(t: HTree, v: seq<bool>) {
    Inner(t, v) && !Listed(t, HeapNumber(v)) && forall u :: Deep(t, u) ==> Tail(u) != v
  }

  ghost predicate AllDead(t: HTree, s: seq<bool>) { forall v :: |v| == 31 && s <= v ==> Dead(t, v) }

  /** Where the table number of m begins m itself, no run comes to the end of m. */
  lemma NeverThere(t: HTree, m: seq<bool>)
    requires AllFound(t) && LeafPath(t, m) && |m| == 32 && Strip(m) <= m && |Strip(m)| <= 30
    ensures Dead(t, m[..31])
  {
    hide HeapNumber, AllFound, Listed, Strip, Number, LeafPath, Inner, Emits, Deep;
    var q := m[..31];
    AboveLeaf(t, m, 31);
    if Listed(t, HeapNumber(q)) {
      var u, l := ListedThrough(t, m, q);
      NotAgain(t, u, l);
    }
    forall u | Deep(t, u) ensures Tail(u) != q {
      if Tail(u) == q {
        var l := Through(t, m, u);
        DeepUnique(t, u, u[..l]);
      }
    }
  }

  lemma NotAgain(t: HTree, u: seq<bool>, l: nat)
    requires AllFound(t) && Emits(t, u) && l < |u|
    ensures 1 <= l ==> Number(u) != HeapNumber(Tail(u[..l]))
  {
    hide HeapNumber, AllFound, Listed, Number, Silent;
    EmitsRegular(t, u);
    RegularPrefix(u, l);
    TailNumber(u[..l]);
    assert 1 <= l ==> At(u, l) < Number(u);
  }

  /** What is dead before a code word is dead below its table number. */
  lemma Spread(t: HTree, x: seq<bool>)
    requires AllFound(t) && LeafPath(t, x) && |x| == 32 && |Strip(x)| <= 30 && Dead(t, x[..31])
    ensures AllDead(t, Strip(x))
  {
    hide HeapNumber, AllFound, Listed, Strip, Number, LeafPath, Inner, Emits, Deep;
    forall v | |v| == 31 && Strip(x) <= v ensures Dead(t, v) {
      Unlisted(t, x, v);
      AllInner(t, x, v, 31);
      assert v[..31] == v;
      forall u | Deep(t, u) ensures Tail(u) != v {
        if Tail(u) == v { var l := Through(t, x, u); }
      }
    }
  }

  lemma Unlisted(t: HTree, x: seq<bool>, v: seq<bool>)
    requires AllFound(t) && LeafPath(t, x) && |x| == 32 && Dead(t, x[..31])
    requires Strip(x) <= v && |Strip(x)| < |v| <= 31
    ensures !Listed(t, HeapNumber(v))
  {
    hide HeapNumber, AllFound, Listed, Strip, Number, LeafPath, Inner, Emits, Deep;
    if Listed(t, HeapNumber(v)) { var u, l := ListedThrough(t, x, v); }
  }

  lemma {:induction false} AllInner(t: HTree, x: seq<bool>, v: seq<bool>, n: nat)
    requires AllFound(t) && LeafPath(t, x) && |x| == 32 && Dead(t, x[..31])
    requires Strip(x) <= v && |Strip(x)| <= n <= |v| == 31
    ensures Inner(t, v[..n])
  {
    hide HeapNumber, AllFound, Listed, Strip, Number, LeafPath, Inner, Emits, Deep;
    if n == |Strip(x)| {
      StripInner(t, x);
      assert v[..n] == Strip(x);
    } else {
      var w := v[..n];
      AllInner(t, x, v, n - 1);
      NodeStep(t, v[..n - 1], v[n - 1]);
      assert v[..n - 1] + [v[n - 1]] == w;
      Unlisted(t, x, w);
      ShortNumber(w);
      LeafListed(t, w);
    }
  }

  // ---- the word repeats itself ----

  lemma {:induction false} StripIs(u: seq<bool>) returns (z: nat)
    requires true in u
    ensures z < |u| && u[z] && true !in u[..z] && Strip(u) == u[z + 1..]
  {
    if u[0] {
      z := 0;
    } else {
      z := StripIs(u[1..]);
      assert u[..z + 1] == [u[0]] + u[1..][..z];
      z := z + 1;
    }
  }

  lemma {:induction false} StripOf(u: seq<bool>, z: nat)
    requires z < |u| && u[z] && true !in u[..z]
    ensures Strip(u) == u[z + 1..]
  {
    if z > 0 {
      assert u[..z][0] == u[0];
      assert u[1..][..z - 1] == u[..z][1..];
      StripOf(u[1..], z - 1);
    }
  }

  /** 31 zeros are not inner: behind them a code word would have the number zero. */
  lemma ZeroPath(t: HTree)
    requires AllFound(t)
    ensures !Inner(t, Zeros(31))
  {
    hide HeapNumber, Listed, Strip, Number, LeafPath, Inner;
    var z := Zeros(31);
    if Inner(t, z) {
      DeepLeaf(t, z, true);
      StripZeros(z);
      LongLeaf(t, z + [true]);
    }
  }

  function Ones(n: nat): (r: seq<bool>)
    ensures |r| == n
  {
    seq(n, _ => true)
  }

  /** A word of ones pulls the zeros in from behind. */
  lemma {:induction false} OnesSlide(t: HTree, n: nat)
    requires AllFound(t) && 1 <= n <= 32 && LeafPath(t, Ones(n) + Zeros(32 - n))
    ensures Inner(t, Zeros(31))
    decreases n
  {
    hide AllFound, LeafPath, Inner;
    var x := Ones(n) + Zeros(32 - n);
    StripInner(t, x);
    assert x[1..] == Ones(n - 1) + Zeros(32 - n);
    if n == 1 {
      assert x[1..] == Zeros(31);
    } else {
      DeepLeaf(t, x[1..], false);
      assert x[1..] + [false] == Ones(n - 1) + Zeros(33 - n);
      OnesSlide(t, n - 1);
    }
  }

  /** With period p, what is dead below e bits of the word is dead below p bits less. */
  lemma {:induction false} Collapse(t: HTree, m: seq<bool>, z: nat, e: nat)
    requires AllFound(t) && |m| == 32 && 1 <= z && e <= 31 && z < 31 && m[z] && true !in m[..z] && m[z + 1..] <= m
    requires AllDead(t, m[..e])
    ensures Inner(t, Zeros(31))
    decreases e
  {
    hide AllFound, LeafPath, Inner, HeapNumber, Strip, Deep, Listed;
    if e <= z {
      var v := m[..e] + Zeros(31 - e);
      forall i | 0 <= i < 31 ensures !v[i] { if i < e { assert m[..z][i] == m[i]; } }
      assert v == Zeros(31);
      assert Dead(t, v);
    } else {
      var e' := e - z - 1;
      forall v | |v| == 31 && m[..e'] <= v ensures Dead(t, v) {
        CollapseAt(t, m, z, e, v);
      }
      Collapse(t, m, z, e');
    }
  }

  lemma CollapseAt(t: HTree, m: seq<bool>, z: nat, e: nat, v: seq<bool>)
    requires AllFound(t) && |m| == 32 && 1 <= z < e <= 31 && m[z] && true !in m[..z] && m[z + 1..] <= m
    requires AllDead(t, m[..e]) && |v| == 31 && m[..e - z - 1] <= v
    ensures Dead(t, v)
  {
    hide AllFound, LeafPath, Inner, HeapNumber, Strip, Deep, Listed;
    var e' := e - z - 1;
    var x := m[..e] + v[e'..31 - z];
    assert |x| == 32;
    assert x[..z] == m[..z] && x[z];
    StripOf(x, z);
    assert Strip(x) == v[..31 - z] by {
      forall i | 0 <= i < 31 - z ensures x[z + 1..][i] == v[i] {
        if i < e' {
          assert x[z + 1 + i] == m[z + 1 + i] == m[z + 1..][i] == m[i] == v[i];
        }
      }
    }
    assert m[..e] <= x[..31];
    assert Dead(t, x[..31]);
    DeepLeaf(t, x[..31], x[31]);
    assert x[..31] + [x[31]] == x;
    Spread(t, x);
  }

  /** So the table number of no code word of 32 bits begins that word. */
  lemma NoWordRepeats(t: HTree, m: seq<bool>)
    requires AllFound(t) && LeafPath(t, m) && |m| == 32
    ensures !(Strip(m) <= m)
  {
    hide AllFound, LeafPath, Inner, HeapNumber, Strip, Deep, Listed, Number;
    if Strip(m) <= m {
      LongLeaf(t, m);
      var z := StripIs(m);
      ZeroPath(t);
      if z == 0 {
        AllOnes(m, 31);
        assert m == Ones(32) + Zeros(0);
        OnesSlide(t, 32);
      } else {
        NeverThere(t, m);
        Spread(t, m);
        assert m[..31 - z] == Strip(m);
        Collapse(t, m, z, 31 - z);
      }
    }
  }

  lemma {:induction false} AllOnes(m: seq<bool>, n: nat)
    requires n < |m| && m[0] && m[1..] <= m
    ensures forall i :: 0 <= i <= n ==> m[i]
  {
    if n > 0 {
      AllOnes(m, n - 1);
      assert m[n] == m[1..][n - 1] == m[n - 1];
    }
  }
}
