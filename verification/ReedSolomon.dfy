/** Reed-Solomon check bytes as computed by qrencode. */
module ReedSolomon {
  import opened Gf256
  import opened GfField

  // ---- polynomials ----

  /** The value of a polynomial at `r`, first coefficient the highest. */
  function Eval(s: seq<bv8>, r: bv8): bv8 {
    if s == [] then 0 else Add(Mul(Eval(s[..|s| - 1], r), r), s[|s| - 1])
  }

  function Plus(a: seq<bv8>, b: seq<bv8>): (c: seq<bv8>)
    requires |a| == |b|
    ensures |c| == |a|
  {
    seq(|a|, i requires 0 <= i < |a| => Add(a[i], b[i]))
  }

  function Scale(a: seq<bv8>, f: bv8): (c: seq<bv8>)
    ensures |c| == |a|
  {
    seq(|a|, i requires 0 <= i < |a| => Mul(a[i], f))
  }

  lemma {:induction false} EvalPlus(a: seq<bv8>, b: seq<bv8>, r: bv8)
    requires |a| == |b|
    ensures Eval(Plus(a, b), r) == Add(Eval(a, r), Eval(b, r))
  {
    hide Mul, Add;
    AddLaws(0, 0);
    if a != [] {
      var n := |a| - 1;
      var x, y := Eval(a[..n], r), Eval(b[..n], r);
      assert Plus(a, b)[..n] == Plus(a[..n], b[..n]);
      EvalPlus(a[..n], b[..n], r);
      MulAddLeft(x, y, r);
      AddSwap(Mul(x, r), Mul(y, r), a[n], b[n]);
    }
  }

  lemma {:induction false} EvalScale(a: seq<bv8>, f: bv8, r: bv8)
    ensures Eval(Scale(a, f), r) == Mul(Eval(a, r), f)
  {
    hide Mul, Add;
    if a == [] {
      MulUnits(f);
    } else {
      var n := |a| - 1;
      var x := Eval(a[..n], r);
      assert Scale(a, f)[..n] == Scale(a[..n], f);
      EvalScale(a[..n], f, r);
      MulLast(x, f, r);
      MulAddLeft(Mul(x, r), a[n], f);
    }
  }

  lemma MulLast(x: bv8, f: bv8, r: bv8)
    ensures Mul(Mul(x, f), r) == Mul(Mul(x, r), f)
  {
    hide Mul;
    MulAssoc(x, f, r);
    MulAssoc(x, r, f);
    MulComm(f, r);
  }

  /** Appending a coefficient is multiplying by the variable and adding. */
  lemma EvalAppend(s: seq<bv8>, c: bv8, r: bv8)
    ensures Eval(s + [c], r) == Add(Mul(Eval(s, r), r), c)
  {
    assert (s + [c])[..|s|] == s;
  }

  function Power(r: bv8, m: nat): bv8 {
    if m == 0 then 1 else Mul(Power(r, m - 1), r)
  }

  /** The front part of a polynomial counts with the power of the variable behind it. */
  lemma {:induction false} EvalConcat(a: seq<bv8>, b: seq<bv8>, r: bv8)
    ensures Eval(a + b, r) == Add(Mul(Eval(a, r), Power(r, |b|)), Eval(b, r))
  {
    hide Mul, Add;
    if b == [] {
      MulUnits(Eval(a, r));
      AddLaws(Eval(a, r), 0);
      assert a + b == a;
    } else {
      var n := |b| - 1;
      var p, x, y := Power(r, n), Eval(a, r), Eval(b[..n], r);
      assert a + b == (a + b[..n]) + [b[n]];
      EvalAppend(a + b[..n], b[n], r);
      EvalConcat(a, b[..n], r);
      MulAddLeft(Mul(x, p), y, r);
      MulAssoc(x, p, r);
      AddAssoc(Mul(Mul(x, p), r), Mul(y, r), b[n]);
    }
  }

  lemma EvalOne(c: bv8, r: bv8)
    ensures Eval([c], r) == c
  {
    hide Mul, Add;
    EvalAppend([], c, r);
    MulUnits(r);
    AddLaws(c, 0);
    assert [] + [c] == [c];
  }

  function Reverse(s: seq<bv8>): (r: seq<bv8>)
    ensures |r| == |s| && forall i :: 0 <= i < |s| ==> r[i] == s[|s| - 1 - i]
  {
    seq(|s|, i requires 0 <= i < |s| => s[|s| - 1 - i])
  }

  // ---- the generator ----

  /** The product of x + alpha^i for i below n, lowest coefficient first. */
  function Gen(n: nat): (g: seq<bv8>)
    ensures |g| == n + 1
  {
    if n == 0 then [1]
    else
      var h := Gen(n - 1);
      seq(n + 1, k requires 0 <= k < n + 1 =>
        Add(if k > 0 then h[k - 1] else 0, if k < n then Times(h[k], n - 1) else 0))
  }

  lemma GenAt(n: nat, k: nat)
    requires k <= n + 1
    ensures Gen(n + 1)[k] == Add(if k > 0 then Gen(n)[k - 1] else 0, if k <= n then Times(Gen(n)[k], n) else 0)
  {
    hide Times, Add;
  }

  lemma {:induction false} GenMonic(n: nat)
    ensures Gen(n)[n] == 1
  {
    hide Add;
    if n > 0 {
      GenMonic(n - 1);
      AddLaws(1, 0);
    }
  }

  lemma GenStep(n: nat)
    ensures
      var h := Reverse(Gen(n));
      Reverse(Gen(n + 1)) == Plus(h + [0], [0] + Scale(h, Alpha(n)))
  {
    hide Gen, Mul, Times, Add, Alpha;
    var g, h := Reverse(Gen(n + 1)), Reverse(Gen(n));
    forall k | 0 <= k < n + 2 ensures g[k] == Plus(h + [0], [0] + Scale(h, Alpha(n)))[k] {
      GenAt(n, n + 1 - k);
      if k > 0 { MulAlpha(h[k - 1], n); }
    }
  }

  /** As polynomials: each step multiplies by x + alpha^n. */
  lemma GenFactor(n: nat, r: bv8)
    ensures Eval(Reverse(Gen(n + 1)), r) == Mul(Eval(Reverse(Gen(n)), r), Add(r, Alpha(n)))
  {
    hide Mul, Times, Eval, Add, Alpha, Power, Gen;
    var h := Reverse(Gen(n));
    var x := Eval(h, r);
    GenStep(n);
    EvalPlus(h + [0], [0] + Scale(h, Alpha(n)), r);
    EvalAppend(h, 0, r);
    AddLaws(Mul(x, r), 0);
    EvalConcat([0], Scale(h, Alpha(n)), r);
    EvalOne(0, r);
    MulUnits(Power(r, n + 1));
    EvalScale(h, Alpha(n), r);
    AddLaws(Mul(x, Alpha(n)), 0);
    MulAddRight(x, r, Alpha(n));
  }

  /** alpha^i is a root of every generator of degree above i. */
  lemma {:induction false} GenRoot(n: nat, i: nat)
    requires i < n
    ensures Eval(Reverse(Gen(n)), Alpha(i)) == 0
  {
    hide Mul, Eval, Gen, Times, Add, Alpha;
    GenFactor(n - 1, Alpha(i));
    var x := Eval(Reverse(Gen(n - 1)), Alpha(i));
    if i == n - 1 {
      AddLaws(Alpha(i), 0);
      MulUnits(x);
    } else {
      GenRoot(n - 1, i);
      MulUnits(Add(Alpha(i), Alpha(n - 1)));
    }
  }

  /** Neighbouring coefficients are related as Gaussian binomials are. */
  lemma {:induction false} GenNeighbours(n: nat, j: nat)
    requires j < n
    ensures Add(Gen(n)[j], Times(Gen(n)[j], n - j)) == Add(Times(Gen(n)[j + 1], n - j - 1), Times(Gen(n)[j + 1], n))
  {
    hide Times, Add, Gen;
    var m := n - 1;
    var g := Gen(m);
    var c := g[j];
    GenAt(m, j);
    GenAt(m, j + 1);
    // from below: lo + x^(m-j+1) lo == x^(m-j) c + x^m c
    var lo := if j > 0 then g[j - 1] else 0;
    if j > 0 {
      GenNeighbours(m, j - 1);
    } else {
      TimesZero(m + 1);
      AddLaws(0, 0);
      AddLaws(Times(c, m), 0);
    }
    // from above, times x: x c + x^(m-j+1) c == x^(m-j) hi + x^(m+1) hi
    var hi := if j < m then g[j + 1] else 0;
    if j < m {
      GenNeighbours(m, j);
      NeighbourTimesX(c, hi, m, j);
    } else {
      TimesZero(0);
      TimesZero(m);
      TimesZero(m + 1);
      AddLaws(0, 0);
      AddLaws(Times(c, 1), 0);
    }
    NeighbourSum(lo, c, hi, m, j);
  }

  lemma NeighbourTimesX(c: bv8, hi: bv8, m: nat, j: nat)
    requires j < m && Add(c, Times(c, m - j)) == Add(Times(hi, m - j - 1), Times(hi, m))
    ensures Add(Times(c, 1), Times(c, m - j + 1)) == Add(Times(hi, m - j), Times(hi, m + 1))
  {
    hide Times, Add;
    TimesAdd(c, Times(c, m - j), 1);
    TimesAdd(Times(hi, m - j - 1), Times(hi, m), 1);
    TimesTimes(c, m - j, 1);
    TimesTimes(hi, m - j - 1, 1);
    TimesTimes(hi, m, 1);
  }

  /** The algebra of the step from degree m to m+1. */
  lemma NeighbourSum(lo: bv8, c: bv8, hi: bv8, m: nat, j: nat)
    requires j <= m
    requires Add(lo, Times(lo, m - j + 1)) == Add(Times(c, m - j), Times(c, m))
    requires Add(Times(c, 1), Times(c, m - j + 1)) == Add(Times(hi, m - j), Times(hi, m + 1))
    ensures
      var a, b := Add(lo, Times(c, m)), Add(c, Times(hi, m));
      Add(a, Times(a, m + 1 - j)) == Add(Times(b, m - j), Times(b, m + 1))
  {
    hide Times, Add;
    var d := m - j;
    // left: x^d c + x^(m+d+1) c
    TimesAdd(lo, Times(c, m), d + 1);
    TimesTimes(c, m, d + 1);
    AddSwap(lo, Times(c, m), Times(lo, d + 1), Times(c, m + d + 1));
    var cd, cm, cmd := Times(c, d), Times(c, m), Times(c, m + d + 1);
    AddCancel(cd, cm, cmd);
    // right: x^d c + x^(m+1) c + x^m (x^d hi + x^(m+1) hi)
    TimesAdd(c, Times(hi, m), d);
    TimesAdd(c, Times(hi, m), m + 1);
    TimesTimes(hi, m, d);
    TimesTimes(hi, m, m + 1);
    AddSwap(cd, Times(hi, m + d), Times(c, m + 1), Times(hi, m + (m + 1)));
    TimesTimes(hi, d, m);
    TimesTimes(hi, m + 1, m);
    assert d + m == m + d && (m + 1) + m == m + (m + 1);
    TimesAdd(Times(hi, d), Times(hi, m + 1), m);
    TimesAdd(Times(c, 1), Times(c, d + 1), m);
    TimesTimes(c, 1, m);
    TimesTimes(c, d + 1, m);
    assert 1 + m == m + 1 && d + 1 + m == m + d + 1;
    AddCancel(cd, Times(c, m + 1), cmd);
  }

  lemma AddCancel(p: bv8, q: bv8, s: bv8)
    ensures Add(Add(p, q), Add(q, s)) == Add(p, s)
  {
  }

  /** No coefficient is zero, so every logarithm taken by the encoder exists. */
  lemma {:induction false} GenNonzero(n: nat, j: nat)
    requires j <= n <= 254
    ensures Gen(n)[j] != 0
    decreases n - j
  {
    hide Times, Gen, Xtime, LogAt, Add;
    if j == n {
      GenMonic(n);
    } else {
      GenNonzero(n, j + 1);
      GenNeighbours(n, j);
      var c := Gen(n)[j + 1];
      LogIsLog(c);
      var t := LogAt(c);
      TimesAlpha(t, n - j - 1);
      TimesAlpha(t, n);
      AlphaDistinct(t + (n - j - 1), t + n);
      TimesZero(n - j);
      AddLaws(0, 0);
      AddLaws(Times(c, n - j - 1), Times(c, n));
    }
  }

  // ---- the remainder ----

  /** One turn of the division register: shift up, take off the generator times the byte shifted out. */
  function Shift(ec: seq<bv8>, d: bv8, g: seq<bv8>): (r: seq<bv8>)
    requires |ec| > 0 && |g| == |ec| + 1
    ensures |r| == |ec|
  {
    var m := |ec|;
    seq(m, k requires 0 <= k < m => Add(if k + 1 < m then ec[k + 1] else 0, Mul(g[m - 1 - k], Add(d, ec[0]))))
  }

  function CheckBytes(data: seq<bv8>, g: seq<bv8>): (r: seq<bv8>)
    requires |g| > 1
    ensures |r| == |g| - 1
  {
    if data == [] then seq(|g| - 1, _ => 0)
    else Shift(CheckBytes(data[..|data| - 1], g), data[|data| - 1], g)
  }

  lemma {:induction false} EvalZeros(n: nat, r: bv8)
    ensures Eval(seq(n, _ => 0), r) == 0
  {
    hide Mul, Add;
    if n > 0 {
      EvalZeros(n - 1, r);
      assert seq(n, _ => 0 as bv8)[..n - 1] == seq(n - 1, _ => 0 as bv8);
      MulUnits(r);
      AddLaws(0, 0);
    }
  }

  /** At a root the low part of the generator has the value of the leading power. */
  lemma GenTail(n: nat, i: nat)
    requires i < n
    ensures Eval(Reverse(Gen(n)[..n]), Alpha(i)) == Power(Alpha(i), n)
  {
    hide Mul, Add, Eval, Gen, Power, Alpha;
    var r := Alpha(i);
    var low := Reverse(Gen(n)[..n]);
    GenRoot(n, i);
    GenMonic(n);
    assert Reverse(Gen(n)) == [1] + low;
    EvalConcat([1], low, r);
    EvalOne(1, r);
    MulUnits(Power(r, n));
    AddLaws(Power(r, n), Eval(low, r));
  }

  /** What one turn of the register does to the value at a root. */
  lemma ShiftValue(n: nat, i: nat, ec: seq<bv8>, d: bv8)
    requires i < n == |ec|
    ensures
      var r := Alpha(i);
      Eval(Shift(ec, d, Gen(n)), r) == Add(Mul(Eval(ec, r), r), Mul(d, Power(r, n)))
  {
    hide Mul, Add, Eval, Gen, Alpha, Shift, Power;
    var r, f := Alpha(i), Add(d, ec[0]);
    var low, p, e := Reverse(Gen(n)[..n]), Power(r, n), Eval(ec[1..], r);
    ShiftShape(ec, d, Gen(n));
    EvalPlus(ec[1..] + [0], Scale(low, f), r);
    EvalAppend(ec[1..], 0, r);
    AddLaws(Mul(e, r), 0);
    EvalScale(low, f, r);
    GenTail(n, i);
    MulAddRight(p, d, ec[0]);
    MulComm(p, d);
    MulComm(p, ec[0]);
    LeadingOut(ec, r);
    var x, y, z := Mul(e, r), Mul(d, p), Mul(ec[0], p);
    AddLaws(y, z);
    AddAssoc(x, z, y);
    AddLaws(x, z);
  }

  lemma ShiftShape(ec: seq<bv8>, d: bv8, g: seq<bv8>)
    requires |ec| > 0 && |g| == |ec| + 1
    ensures Shift(ec, d, g) == Plus(ec[1..] + [0], Scale(Reverse(g[..|ec|]), Add(d, ec[0])))
  {
    hide Mul, Add;
  }

  /** Multiplying the register by the variable moves its first byte out with the leading power. */
  lemma LeadingOut(ec: seq<bv8>, r: bv8)
    requires |ec| > 0
    ensures Mul(Eval(ec, r), r) == Add(Mul(ec[0], Power(r, |ec|)), Mul(Eval(ec[1..], r), r))
  {
    hide Mul, Add, Eval;
    var p := Power(r, |ec| - 1);
    assert ec == [ec[0]] + ec[1..];
    EvalConcat([ec[0]], ec[1..], r);
    EvalOne(ec[0], r);
    MulAddLeft(Mul(ec[0], p), Eval(ec[1..], r), r);
    MulAssoc(ec[0], p, r);
  }

  /** The register holds the data times the leading power, at every root of the generator. */
  lemma {:induction false} RegisterValue(n: nat, i: nat, data: seq<bv8>)
    requires i < n
    ensures
      var r := Alpha(i);
      Eval(CheckBytes(data, Gen(n)), r) == Mul(Eval(data, r), Power(r, n))
  {
    hide Mul, Add, Gen, Alpha, Power, Shift;
    var r, p := Alpha(i), Power(Alpha(i), n);
    if data == [] {
      EvalZeros(n, r);
      MulUnits(p);
    } else {
      var d, c := data[..|data| - 1], data[|data| - 1];
      var x := Eval(d, r);
      RegisterValue(n, i, d);
      ShiftValue(n, i, CheckBytes(d, Gen(n)), c);
      MulAddLeft(Mul(x, r), c, p);
      MulLast(x, r, p);
    }
  }

  /** All of alpha^0 to alpha^(n-1) are roots. */
  ghost predicate Codeword(s: seq<bv8>, n: nat) {
    forall i :: 0 <= i < n ==> Eval(s, Alpha(i)) == 0
  }

  /** Main result: data followed by its check bytes is a codeword. */
  lemma EncodedIsCodeword(n: nat, data: seq<bv8>)
    requires n > 0
    ensures Codeword(data + CheckBytes(data, Gen(n)), n)
  {
    hide Mul, Add, Gen, Alpha, Power, Eval, CheckBytes;
    var e := CheckBytes(data, Gen(n));
    forall i | 0 <= i < n ensures Eval(data + e, Alpha(i)) == 0 {
      RegisterValue(n, i, data);
      EvalConcat(data, e, Alpha(i));
      AddLaws(Eval(e, Alpha(i)), 0);
    }
  }

  // ---- the check bytes are determined ----

  /** Synthetic division by x + r. */
  function Quotient(s: seq<bv8>, r: bv8): (q: seq<bv8>)
    requires |s| > 0
    ensures |q| == |s| - 1
    ensures forall k :: 0 <= k < |q| ==> q[k] == Eval(s[..k + 1], r)
  {
    seq(|s| - 1, k requires 0 <= k < |s| - 1 => Eval(s[..k + 1], r))
  }

  lemma {:induction false} DivideOut(s: seq<bv8>, r: bv8, t: bv8)
    requires |s| > 0
    ensures Eval(s, t) == Add(Mul(Eval(Quotient(s, r), t), Add(t, r)), Eval(s, r))
  {
    hide Mul, Add, Eval;
    if |s| == 1 {
      assert s == [s[0]];
      EvalOne(s[0], r);
      EvalOne(s[0], t);
      QuotientEmpty(s, r, t);
      MulUnits(Add(t, r));
      AddLaws(s[0], 0);
    } else {
      var n := |s| - 1;
      var s', c := s[..n], s[n];
      assert s == s' + [c];
      DivideOut(s', r, t);
      EvalAppend(s', c, r);
      EvalAppend(s', c, t);
      QuotientLast(s, r);
      EvalAppend(Quotient(s', r), Eval(s', r), t);
      DivideStep(Eval(Quotient(s', r), t), Eval(s', r), r, t, c);
    }
  }

  lemma QuotientEmpty(s: seq<bv8>, r: bv8, t: bv8)
    requires |s| == 1
    ensures Eval(Quotient(s, r), t) == 0
  {
  }

  lemma QuotientLast(s: seq<bv8>, r: bv8)
    requires |s| > 1
    ensures Quotient(s, r) == Quotient(s[..|s| - 1], r) + [Eval(s[..|s| - 1], r)]
  {
    hide Eval;
    var n := |s| - 1;
    forall k | 0 <= k < n - 1 ensures Quotient(s, r)[k] == Quotient(s[..n], r)[k] {
      assert s[..n][..k + 1] == s[..k + 1];
    }
  }

  /** (q(t+r) + e)t + c  ==  (qt + e)(t+r) + (er + c) */
  lemma DivideStep(q: bv8, e: bv8, r: bv8, t: bv8, c: bv8)
    ensures Add(Mul(Add(Mul(q, Add(t, r)), e), t), c)
         == Add(Mul(Add(Mul(q, t), e), Add(t, r)), Add(Mul(e, r), c))
  {
    hide Mul, Add;
    var u := Add(t, r);
    MulAddLeft(Mul(q, u), e, t);
    MulLast(q, u, t);
    MulAddLeft(Mul(q, t), e, u);
    MulAddRight(e, t, r);
    var a, b, d := Mul(Mul(q, t), u), Mul(e, t), Mul(e, r);
    AddAssoc(a, b, c);
    AddAssoc(a, Add(b, d), Add(d, c));
    AddCancel(b, d, c);
  }

  ghost predicate Apart(rs: seq<bv8>) { forall i, j :: 0 <= i < j < |rs| ==> rs[i] != rs[j] }

  ghost predicate AllZero(s: seq<bv8>) { forall i :: 0 <= i < |s| ==> s[i] == 0 }

  /** A polynomial with as many roots as coefficients is zero. */
  lemma {:induction false} TooManyRoots(s: seq<bv8>, rs: seq<bv8>)
    requires |s| == |rs| && Apart(rs) && forall i :: 0 <= i < |rs| ==> Eval(s, rs[i]) == 0
    ensures AllZero(s)
    decreases |s|
  {
    hide Mul, Add, Eval;
    if s != [] {
      var n := |s| - 1;
      var r, q := rs[n], Quotient(s, rs[n]);
      forall i | 0 <= i < n ensures Eval(q, rs[i]) == 0 {
        DivideOut(s, r, rs[i]);
        AddLaws(rs[i], r);
        AddLaws(Mul(Eval(q, rs[i]), Add(rs[i], r)), 0);
        if Eval(q, rs[i]) != 0 { MulNonzero(Eval(q, rs[i]), Add(rs[i], r)); }
      }
      TooManyRoots(q, rs[..n]);
      assert s[..n + 1] == s;
      forall k | 0 <= k < |s| ensures s[k] == 0 {
        assert s[..k + 1] == s[..k] + [s[k]];
        EvalAppend(s[..k], s[k], r);
        if k == 0 { EvalOne(s[0], r); assert s[..1] == [s[0]]; } else { assert q[k - 1] == 0; }
        assert k < n ==> q[k] == 0;
        MulUnits(r);
        AddLaws(s[k], 0);
      }
    }
  }

  /** No other check bytes make a codeword of the data. */
  lemma CheckBytesUnique(n: nat, data: seq<bv8>, e: seq<bv8>, e': seq<bv8>)
    requires |e| == |e'| == n <= 255 && Codeword(data + e, n) && Codeword(data + e', n)
    ensures e == e'
  {
    hide Mul, Add, Eval, Alpha, Power;
    var rs := seq(n, i requires 0 <= i < n => Alpha(i));
    forall i, j | 0 <= i < j < n ensures rs[i] != rs[j] { AlphaDistinct(i, j); }
    forall i | 0 <= i < n ensures Eval(Plus(e, e'), rs[i]) == 0 {
      var r := Alpha(i);
      EvalConcat(data, e, r);
      EvalConcat(data, e', r);
      EvalPlus(e, e', r);
      AddLaws(Mul(Eval(data, r), Power(r, n)), Eval(e, r));
      AddLaws(Mul(Eval(data, r), Power(r, n)), Eval(e', r));
      AddLaws(Eval(e, r), Eval(e, r));
    }
    TooManyRoots(Plus(e, e'), rs);
    forall k | 0 <= k < n ensures e[k] == e'[k] {
      assert Plus(e, e')[k] == 0;
      AddLaws(e[k], e'[k]);
    }
  }
}
