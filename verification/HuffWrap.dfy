/** What a trie with codes of 32 bits must be like if the decoder's scan is to find every table number:
    each run that finds one stays on inner nodes of the trie. */
module HuffWrap {
  import opened HuffTree
  import opened HuffForest
  import opened HuffNumber
  import opened HuffNodes

  /** The path of at most 31 bits the number stands for, as long as no 32 zeros are met. */
  function Tail(u: seq<bool>): (r: seq<bool>)
    ensures |r| <= 31
  {
    if u == [] then []
    else
      var v := Tail(u[..|u| - 1]) + [u[|u| - 1]];
      if |v| <= 31 then v else Strip(v)
  }

  /** No prefix of u met the one number that no path of up to 31 bits has. */
  ghost predicate Regular(u: seq<bool>) { forall l :: 0 <= l <= |u| ==> At(u, l) < WORD - 1 }

  function At(u: seq<bool>, l: nat): nat
    requires l <= |u|
  {
    Number(u[..l])
  }

  lemma RegularPrefix(u: seq<bool>, n: nat)
    requires Regular(u) && n <= |u|
    ensures Regular(u[..n])
  {
    hide Number;
    forall l | 0 <= l <= n ensures At(u[..n], l) < WORD - 1 {
      assert u[..n][..l] == u[..l];
      assert At(u, l) < WORD - 1;
    }
  }

  lemma {:induction false} TailNumber(u: seq<bool>)
    requires Regular(u)
    ensures Number(u) == HeapNumber(Tail(u))
  {
    hide HeapNumber, Strip;
    ShortNumber([]);
    if u != [] {
      var p, b := u[..|u| - 1], u[|u| - 1];
      assert u == p + [b];
      RegularPrefix(u, |p|);
      TailNumber(p);
      NumberStep(p, b);
      NumberStep(Tail(p), b);
      ShortNumber(Tail(p));
      var v := Tail(p) + [b];
      assert At(u, |u|) == Number(u) by { assert u[..|u|] == u; }
      assert Number(u) == Number(v);
      if |v| <= 31 { ShortNumber(v); } else { StripNumber(v); }
    }
  }

  lemma {:induction false} TailShort(u: seq<bool>)
    requires |u| <= 31
    ensures Tail(u) == u
  {
    if u != [] {
      TailShort(u[..|u| - 1]);
      assert u == u[..|u| - 1] + [u[|u| - 1]];
    }
  }

  /** After 32 bits of a window the number never grows. */
  lemma StripIsNoRecord(u: seq<bool>)
    requires u != [] && Regular(u) && |Tail(u[..|u| - 1])| == 31
    ensures Number(u) <= Number(u[..|u| - 1])
  {
    hide HeapNumber, Tail;
    var p, b := u[..|u| - 1], u[|u| - 1];
    assert u == p + [b];
    NumberStep(p, b);
    RegularPrefix(u, |p|);
    TailNumber(p);
    ShortNumber(Tail(p));
    assert At(u, |u|) == Number(u) by { assert u[..|u|] == u; }
  }

  // ---- what a run of the decoder may emit ----

  /** v is the table number of some code word. */
  ghost predicate Listed(t: HTree, v: nat) { exists x :: LeafPath(t, x) && Number(x) == v }

  /** The scan passes over every listed number among those read. */
  ghost predicate Silent(t: HTree, u: seq<bool>) {
    forall l :: 1 <= l <= |u| && Listed(t, At(u, l)) ==> exists i :: 1 <= i < l && At(u, i) > At(u, l)
  }

  /** A symbol is found after reading exactly u: its number is listed and larger than those before. */
  ghost predicate Emits(t: HTree, u: seq<bool>) {
    && u != [] && Silent(t, u[..|u| - 1]) && Listed(t, Number(u))
    && forall l :: 1 <= l < |u| ==> At(u, l) < Number(u)
  }

  /** What decoding the whole data would need of a trie with codes of 32 bits: different numbers,
      none of them zero, and a run that finds each. */
  ghost predicate AllFound(t: HTree) {
    && WellNumbered(t) && t.Fork? && Depth(t) == 32
    && (forall x, y :: LeafPath(t, x) && LeafPath(t, y) && Number(x) == Number(y) ==> x == y)
    && (forall x :: LeafPath(t, x) ==> 0 < Number(x) && Found(t, Number(x)))
  }

  ghost predicate Found(t: HTree, v: nat) { exists u :: Emits(t, u) && Number(u) == v }

  // ---- what being found tells about a listed number ----

  /** A short listed path is read silently up to its end. */
  lemma ShortFound(t: HTree, v: seq<bool>) returns (u: seq<bool>)
    requires AllFound(t) && Listed(t, Number(v)) && |v| <= 31
    ensures Emits(t, u) && Number(u) == Number(v) && Regular(u)
    ensures |u| <= 31 ==> u == v
    ensures |u| > 31 ==> |v| == 31
  {
    hide Number, HeapNumber, Silent, Inner, LeafPath;
    var x :| LeafPath(t, x) && Number(x) == Number(v);
    u :| Emits(t, u) && Number(u) == Number(x);
    ShortNumber(v);
    EmitsRegular(t, u);
    if |u| <= 31 {
      ShortNumber(u);
      HeapNumberInjective(u, v);
    } else {
      assert At(u, 31) < Number(u);
      ShortNumber(u[..31]);
    }
  }

  lemma EmitsRegular(t: HTree, u: seq<bool>)
    requires AllFound(t) && Emits(t, u)
    ensures Regular(u) && Number(u) < WORD - 1
  {
    hide HeapNumber, Silent, Depth;
    ListedBelow(t, Number(u));
    assert At(u, |u|) == Number(u) by { assert u[..|u|] == u; }
    ShortNumber([]);
    assert u[..0] == [];
  }

  lemma ListedBelow(t: HTree, v: nat)
    requires AllFound(t) && Listed(t, v)
    ensures 0 < v < WORD - 1
  {
    hide Depth, Strip;
    var x :| LeafPath(t, x) && Number(x) == v;
    WithinDepth(t, x);
    if |x| <= 31 {
      ShortNumber(x);
    } else {
      StripNumber(x);
      if true in x {
        ShortNumber(Strip(x));
      } else {
        ZerosFail(t, x);
      }
    }
  }

  /** 32 zeros are no code word: behind 31 zeros the one bit would give the number zero. */
  lemma ZerosFail(t: HTree, x: seq<bool>)
    requires WellNumbered(t) && t.Fork? && Depth(t) == 32 && |x| == 32 && LeafPath(t, x) && true !in x
    ensures exists y :: LeafPath(t, y) && Number(y) == 0
  {
    hide HeapNumber, Depth, Inner, LeafPath;
    var z := x[..31];
    AboveLeaf(t, x, 31);
    DeepestSibling(t, z, true);
    var y := z + [true];
    StripZeros(z);
    StripNumber(y);
    ShortNumber([]);
    assert HeapNumber([]) == 0 by { EmptyNumber(); }
  }

  lemma EmptyNumber()
    ensures HeapNumber([]) == 0
  {
  }

  lemma {:induction false} StripZeros(z: seq<bool>)
    requires true !in z
    ensures Strip(z + [true]) == []
  {
    var y := z + [true];
    if z != [] {
      assert y[1..] == z[1..] + [true];
      StripZeros(z[1..]);
    }
  }

  // ---- runs beyond 31 bits ----

  /** A run of 31 bits or more that stays on inner nodes of the trie: it began on an unlisted path, and
      it comes to listed numbers only where 32 bits are cut back. */
  ghost predicate Deep(t: HTree, u: seq<bool>)
    decreases |u|
  {
    if |u| < 31 then false
    else if |u| == 31 then Inner(t, u) && forall i :: 1 <= i <= 31 ==> !Listed(t, HeapNumber(u[..i]))
    else
      var p := u[..|u| - 1];
      Deep(t, p) && Inner(t, Tail(u)) && (|Tail(p)| == 31 || !Listed(t, HeapNumber(Tail(u))))
  }

  /** A code word of 32 bits is listed under the path behind its first one bit. */
  lemma LongLeaf(t: HTree, x: seq<bool>)
    requires AllFound(t) && LeafPath(t, x) && |x| == 32
    ensures true in x && Number(x) == HeapNumber(Strip(x)) && Listed(t, HeapNumber(Strip(x))) && 1 <= |Strip(x)| <= 31
    ensures Number(x) == Number(Strip(x))
  {
    hide HeapNumber, Strip, Depth;
    ListedBelow(t, Number(x));
    StripNumber(x);
    ShortNumber(Strip(x));
    EmptyNumber();
  }

  /** Where a deep run was cut back last: from the code word x, whose number is the longest listed
      prefix of what is left. */
  lemma {:induction false} Back(t: HTree, u: seq<bool>) returns (l: nat, x: seq<bool>)
    requires AllFound(t) && Deep(t, u) && |u| >= 32
    ensures 32 <= l <= |u| && Deep(t, u[..l - 1]) && x == Tail(u[..l - 1]) + [u[l - 1]] && |x| == 32
    ensures LeafPath(t, x) && Tail(u) == Strip(x) + u[l..]
    ensures forall i :: |Strip(x)| < i <= |Tail(u)| ==> !Listed(t, HeapNumber(Tail(u)[..i]))
    decreases |u|
  {
    hide Listed, HeapNumber, Strip, Inner, LeafPath;
    var p := u[..|u| - 1];
    if |Tail(p)| == 31 {
      l := |u|;
      x := Tail(p) + [u[l - 1]];
      DeepInner(t, p);
      DeepestSibling(t, Tail(p), u[l - 1]);
    } else {
      if |u| == 32 { TailShort(p); }
      l, x := Back(t, p);
      assert p[..l - 1] == u[..l - 1] && p[l - 1] == u[l - 1];
      assert u[l..] == p[l..] + [u[|u| - 1]];
      var v := Tail(u);
      assert v == Tail(p) + [u[|u| - 1]];
      forall i | |Strip(x)| < i <= |v| ensures !Listed(t, HeapNumber(v[..i])) {
        if i < |v| { assert v[..i] == Tail(p)[..i]; } else { assert v[..i] == v; }
      }
    }
  }

  lemma DeepInner(t: HTree, u: seq<bool>)
    requires Deep(t, u)
    ensures Inner(t, Tail(u))
  {
    hide Inner, Listed;
    if |u| == 31 { TailShort(u); }
  }

  /** Deep runs to the same path are the same run: going back there is never a choice. */
  lemma {:induction false} DeepUnique(t: HTree, u: seq<bool>, u': seq<bool>)
    requires AllFound(t) && Deep(t, u) && Deep(t, u') && Tail(u) == Tail(u')
    ensures u == u'
    decreases |u|
  {
    hide Listed, HeapNumber, Strip, Tail, Inner, LeafPath;
    if |u| == 31 || |u'| == 31 {
      OneShort(t, u, u');
    } else {
      var l, x := Back(t, u);
      var l', x' := Back(t, u');
      SameListed(t, Tail(u), x, x');
      var p, p' := u[..l - 1], u'[..l' - 1];
      assert Tail(p) == x[..31] == Tail(p');
      DeepUnique(t, p, p');
      assert u == p + [x[31]] + u[l..] && u' == p' + [x[31]] + u'[l'..];
      var r := |Strip(x)|;
      assert u[l..] == Tail(u)[r..] == u'[l'..];
    }
  }

  /** The longest listed prefix of v determines the code word. */
  lemma SameListed(t: HTree, v: seq<bool>, x: seq<bool>, x': seq<bool>)
    requires AllFound(t) && LeafPath(t, x) && LeafPath(t, x') && |x| == |x'| == 32
    requires Strip(x) <= v && forall i :: |Strip(x)| < i <= |v| ==> !Listed(t, HeapNumber(v[..i]))
    requires Strip(x') <= v && forall i :: |Strip(x')| < i <= |v| ==> !Listed(t, HeapNumber(v[..i]))
    ensures x == x'
  {
    hide Listed, HeapNumber, Strip, Depth, Inner, LeafPath, Number;
    LongLeaf(t, x);
    LongLeaf(t, x');
    assert v[..|Strip(x)|] == Strip(x) && v[..|Strip(x')|] == Strip(x');
  }

  lemma OneShort(t: HTree, u: seq<bool>, u': seq<bool>)
    requires AllFound(t) && Deep(t, u) && Deep(t, u') && Tail(u) == Tail(u') && (|u| == 31 || |u'| == 31)
    ensures u == u'
  {
    if |u| == |u'| {
      TailShort(u);
      TailShort(u');
    } else {
      var a, b := if |u| == 31 then u else u', if |u| == 31 then u' else u;
      TailShort(a);
      var i := CutIsListed(t, b);
    }
  }

  /** Behind 31 bits a run has been cut back, to a listed number. */
  lemma CutIsListed(t: HTree, u: seq<bool>) returns (i: nat)
    requires AllFound(t) && Deep(t, u) && |u| >= 32
    ensures 1 <= i <= |Tail(u)| <= 31 && Listed(t, HeapNumber(Tail(u)[..i]))
  {
    hide Listed, HeapNumber, Strip, Inner, LeafPath, AllFound, Deep;
    var l, x := Back(t, u);
    LongLeaf(t, x);
    i := |Strip(x)|;
    assert Tail(u)[..i] == Strip(x);
  }

  // ---- every run that finds a symbol is deep ----

  lemma {:induction false} FirstBits(t: HTree, u: seq<bool>)
    requires AllFound(t) && Silent(t, u) && |u| == 31
    ensures Deep(t, u)
  {
    hide HeapNumber, Depth, Inner, Listed;
    forall i | 1 <= i <= 31 ensures !Listed(t, HeapNumber(u[..i])) { NotListed(t, u, i); }
    SilentIsInner(t, u);
  }

  lemma LeafListed(t: HTree, x: seq<bool>)
    ensures LeafPath(t, x) ==> Listed(t, Number(x))
  {
  }

  /** Up to 31 bits the numbers grow, so a silent run meets no listed one. */
  lemma NotListed(t: HTree, u: seq<bool>, i: nat)
    requires Silent(t, u) && 1 <= i <= |u| && i <= 31
    ensures !Listed(t, HeapNumber(u[..i]))
  {
    hide HeapNumber, Listed, Number;
    ShortNumber(u[..i]);
    forall k | 1 <= k < i ensures At(u, k) <= At(u, i) {
      ShortNumber(u[..k]);
      HeapNumberGrows(u[..k], u[..i]);
    }
    assert At(u, i) == HeapNumber(u[..i]);
  }

  /** The last bit of a run that finds a symbol is not cut back. */
  lemma LastBit(t: HTree, u: seq<bool>)
    requires AllFound(t) && Emits(t, u) && |u| >= 32
    ensures
      var p := u[..|u| - 1];
      |Tail(p)| < 31 && Tail(u) == Tail(p) + [u[|u| - 1]] && Number(u) == HeapNumber(Tail(u))
  {
    hide Number, HeapNumber, Silent, Listed, AllFound, Strip;
    EmitsRegular(t, u);
    TailNumber(u);
    assert At(u, |u| - 1) < Number(u);
    if |Tail(u[..|u| - 1])| == 31 { StripIsNoRecord(u); }
  }

  /** Every run that finds a symbol after more than 31 bits is deep before its last bit. */
  lemma {:induction false} DeepUpTo(t: HTree, u: seq<bool>, l: nat)
    requires AllFound(t) && Emits(t, u) && 31 <= l < |u|
    ensures Deep(t, u[..l])
    decreases Number(u), l
  {
    hide Number, HeapNumber, Silent, Listed, AllFound, Strip, Inner, LeafPath, Depth;
    var q := u[..l];
    SilentPrefix(t, u, l);
    if l == 31 {
      FirstBits(t, q);
    } else {
      var p, b := u[..l - 1], u[l - 1];
      assert q[..l - 1] == p;
      DeepUpTo(t, u, l - 1);
      EmitsRegular(t, u);
      RegularPrefix(u, l);
      assert At(u, l) < Number(u);
      DeepInner(t, p);
      if |Tail(p)| == 31 {
        var x := Tail(p) + [b];
        DeepLeaf(t, Tail(p), b);
        LongLeaf(t, x);
        TailNumber(q);
        StripInner(t, x);
      } else {
        var v := Tail(p) + [b];
        TailNumber(q);
        ShortNumber(v);
        if Listed(t, HeapNumber(v)) {
          var u' := ShortFound(t, v);
          if |u'| > 31 { DeepUpTo(t, u', |u'| - 1); }
          NotOnTheWay(t, u, l, u');
        }
        NodeStep(t, Tail(p), b);
        LeafListed(t, v);
      }
    }
  }

  lemma SilentPrefix(t: HTree, u: seq<bool>, l: nat)
    requires Emits(t, u) && l < |u|
    ensures Silent(t, u[..l])
  {
    hide Number, Listed;
    var p, q := u[..|u| - 1], u[..l];
    forall k | 1 <= k <= l && Listed(t, At(q, k)) ensures exists i :: 1 <= i < k && At(q, i) > At(q, k) {
      assert q[..k] == p[..k];
      assert At(p, k) == At(q, k);
      var i :| 1 <= i < k && At(p, i) > At(p, k);
      assert q[..i] == p[..i];
      assert At(q, i) == At(p, i);
    }
  }

  lemma DeepLeaf(t: HTree, v: seq<bool>, b: bool)
    requires AllFound(t) && Inner(t, v) && |v| == 31
    ensures LeafPath(t, v + [b])
  {
    DeepestSibling(t, v, b);
  }

  /** The path read is not that of a number found by another run. */
  lemma NotOnTheWay(t: HTree, u: seq<bool>, l: nat, u': seq<bool>)
    requires AllFound(t) && Emits(t, u) && 32 <= l < |u| && Deep(t, u[..l - 1]) && |Tail(u[..l - 1])| < 31
    requires Number(u') == Number(Tail(u[..l - 1]) + [u[l - 1]])
    requires |u'| <= 31 ==> u' == Tail(u[..l - 1]) + [u[l - 1]]
    requires |u'| > 31 ==> Deep(t, u'[..|u'| - 1])
    ensures !Emits(t, u')
  {
    hide Number, HeapNumber, Silent, Listed, AllFound, Strip, Inner, LeafPath, Depth, Deep;
    var p, b := u[..l - 1], u[l - 1];
    if !Emits(t, u') {
    } else if |u'| <= 31 {
      assert u'[..|u'| - 1] == Tail(p);
      if l == 32 { TailShort(p); }
      var i := CutIsListed(t, p);
      NotListed(t, Tail(p), i);
    } else {
      LastBit(t, u');
      ShortNumber(Tail(p) + [b]);
      HeapNumberInjective(Tail(u'), Tail(p) + [b]);
      var p' := u'[..|u'| - 1];
      assert Tail(p') == Tail(u')[..|Tail(u')| - 1] == Tail(p);
      DeepUnique(t, p, p');
      assert u' == u[..l];
      NotFoundBefore(t, u, l);
    }
  }

  lemma NotFoundBefore(t: HTree, u: seq<bool>, l: nat)
    requires Emits(t, u) && 1 <= l < |u|
    ensures !Emits(t, u[..l])
  {
    hide Number;
    var p, q := u[..|u| - 1], u[..l];
    assert p[..l] == q == q[..l];
    if Listed(t, At(p, l)) {
      var i :| 1 <= i < l && At(p, i) > At(p, l);
      assert q[..i] == p[..i];
      assert At(q, i) > Number(q);
    }
  }

  /** The table number of a 32-bit code word is that of an inner node. */
  lemma {:induction false} StripInner(t: HTree, x: seq<bool>)
    requires AllFound(t) && LeafPath(t, x) && |x| == 32
    ensures Inner(t, Strip(x))
    decreases Number(x)
  {
    hide Number, HeapNumber, Silent, Listed, AllFound, Strip, Inner, LeafPath, Depth, Deep;
    LongLeaf(t, x);
    var s := Strip(x);
    ShortNumber(s);
    var u := ShortFound(t, s);
    var p := s[..|s| - 1];
    if |u| <= 31 {
      SilentIsInner(t, p);
    } else {
      DeepUpTo(t, u, |u| - 1);
      LastBit(t, u);
      HeapNumberInjective(Tail(u), s);
      DeepInner(t, u[..|u| - 1]);
      assert Tail(u[..|u| - 1]) == p;
    }
    NodeStep(t, p, s[|s| - 1]);
    assert p + [s[|s| - 1]] == s;
    SameNumber(t, x, s);
  }

  lemma SameNumber(t: HTree, x: seq<bool>, y: seq<bool>)
    requires AllFound(t) && LeafPath(t, x) && Number(x) == Number(y)
    ensures LeafPath(t, y) ==> x == y
  {
  }

  lemma SilentIsInner(t: HTree, u: seq<bool>)
    requires AllFound(t) && Silent(t, u) && |u| <= 31
    ensures Inner(t, u)
  {
    hide HeapNumber, Depth, Inner, Listed;
    forall i | 1 <= i <= |u| ensures !LeafPath(t, u[..i]) {
      NotListed(t, u, i);
      ShortNumber(u[..i]);
      LeafListed(t, u[..i]);
    }
    NoLeafOnTheWay(t, u);
  }
}
