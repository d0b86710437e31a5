/** Montgomery multiplication on 64-bit words (embench `aha-mont64`).
    A word is an integer below 2^64; every C operation that can wrap is reduced explicitly. */
module Mont64 {
  import opened Arith

  const R: nat := 0x1_0000_0000_0000_0000
  const HALF: nat := 0x1_0000_0000
  type u64 = x: int | 0 <= x < 0x1_0000_0000_0000_0000

  /** Schoolbook identity behind the four partial products. */
  lemma LimbProduct(h: nat, u: nat, v: nat, u1: nat, u0: nat, v1: nat, v0: nat)
    requires u == u1 * h + u0 && v == v1 * h + v0
    ensures u * v == (u1 * v1) * (h * h) + (u1 * v0 + u0 * v1) * h + u0 * v0
  {
    calc {
      u * v;
      (u1 * h + u0) * (v1 * h + v0);
      (u1 * h) * (v1 * h) + (u1 * h) * v0 + u0 * (v1 * h) + u0 * v0;
      (u1 * v1) * (h * h) + (u1 * v0) * h + (u0 * v1) * h + u0 * v0;
    }
  }

  /** A 32-bit left shift keeps the low half. */
  lemma ShiftedLow(t: u64)
    ensures (t * HALF) % R == (t % HALF) * HALF
  {
    DivModUnique(t * HALF, R, t / HALF, (t % HALF) * HALF);
  }

  lemma SumFits(a: nat, b: nat, c: nat)
    requires a <= (HALF - 1) * (HALF - 1) && b < HALF && c < HALF
    ensures ((a % R + b) % R + c) % R == a + b + c < R
  {
  }

  /** Knuth's Algorithm M on the four partial products of 32-bit limbs. */
  method AlgorithmM(p00: nat, p10: nat, p01: nat, p11: nat) returns (whi: nat, wlo: u64)
    requires p11 <= (HALF - 1) * (HALF - 1) && p10 <= (HALF - 1) * (HALF - 1)
    requires p01 <= (HALF - 1) * (HALF - 1) && p00 <= (HALF - 1) * (HALF - 1)
    ensures whi < R
    ensures whi * R + wlo == p11 * R + (p10 + p01) * HALF + p00
  {
    PartialSum(p00, 0);
    var t := p00 % R;
    var w0 := t % HALF;
    var k := t / HALF;

    PartialSum(p10, k);
    t := (p10 % R + k) % R;
    var w1 := t % HALF;
    var w2 := t / HALF;

    PartialSum(p01, w1);
    t := (p01 % R + w1) % R;
    k := t / HALF;

    ShiftedLow(t);
    LowWord(t % HALF, w0);
    wlo := ((t * HALF) % R + w0) % R;
    SumFits(p11, w2, k);
    whi := ((p11 % R + w2) % R + k) % R;
  }

  /** A partial product and a carry fit one word, which splits into limbs. */
  lemma PartialSum(p: nat, c: nat)
    requires p <= (HALF - 1) * (HALF - 1) && c < HALF
    ensures
      var t := p + c;
      t < R && (p % R + c) % R == t && t / HALF < HALF && t % HALF < HALF && t == (t / HALF) * HALF + t % HALF
    ensures p % R == p
  {
  }

  lemma LowWord(w1: nat, w0: nat)
    requires w1 < HALF && w0 < HALF
    ensures (w1 * HALF + w0) % R == w1 * HALF + w0 < R
  {
  }

  /** The exact 128-bit product, from 32-bit limbs. */
  method MulUl64(u: u64, v: u64) returns (whi: u64, wlo: u64)
    ensures whi * R + wlo == u * v
  {
    var u1, u0 := u / HALF, u % HALF;
    var v1, v0 := v / HALF, v % HALF;
    var p00, p10, p01, p11 := u0 * v0, u1 * v0, u0 * v1, u1 * v1;
    assert p00 <= (HALF - 1) * (HALF - 1) by { MulLe(u0, v0, HALF - 1, HALF - 1); }
    assert p10 <= (HALF - 1) * (HALF - 1) by { MulLe(u1, v0, HALF - 1, HALF - 1); }
    assert p01 <= (HALF - 1) * (HALF - 1) by { MulLe(u0, v1, HALF - 1, HALF - 1); }
    assert p11 <= (HALF - 1) * (HALF - 1) by { MulLe(u1, v1, HALF - 1, HALF - 1); }
    whi, wlo := AlgorithmM(p00, p10, p01, p11);
    LimbProduct(HALF, u, v, u1, u0, v1, v0);
  }

  // ---- modul64 ----

  /** Where shift-subtract division stands: `y` holds the pending dividend `yhi` above the
      quotient bits `q`; `p` and `s` are the powers of two still to go and already done. */
  ghost predicate Dividing(n: nat, z: u64, x: u64, y: u64, q: nat, yhi: nat, p: nat, s: nat) {
    && p * s == R && x < z
    && y == yhi * s + q && q < s && yhi < p
    && n == (z * q + x) * p + yhi
  }

  /** The top bit of `y` enters the partial remainder. */
  lemma TopBit(y: u64, yhi: nat, q: nat, p: nat, s: nat) returns (b: nat, lo: nat)
    requires y == yhi * s + q && q < s && yhi < 2 * p && (2 * p) * s == R
    ensures b == y / (R / 2) && b < 2 && yhi == b * p + lo && lo < p
    ensures (2 * y) % R == lo * (2 * s) + 2 * q < R - 1
  {
    b := if yhi >= p then 1 else 0;
    lo := yhi - b * p;
    var ps, ls := p * s, lo * s;
    assert ps == R / 2 by { assert (2 * p) * s == 2 * (p * s); }
    assert yhi * s == b * ps + ls by { assert (b * p + lo) * s == b * (p * s) + lo * s; }
    assert ls + s <= ps by { MulLe(lo + 1, s, p, s); assert (lo + 1) * s == lo * s + s; }
    assert lo * (2 * s) == 2 * ls;
    TopBitLinear(y, b, ls + q);
  }

  lemma TopBitLinear(y: u64, b: nat, r: nat)
    requires y == b * (R / 2) + r && b < 2 && r < R / 2
    ensures b == y / (R / 2) && (2 * y) % R == 2 * r
  {
  }

  /** One step: the partial remainder becomes 2x+b, less `z` when that is at least `z`. */
  lemma DivisionStep(n: nat, z: u64, x: u64, y: u64, q: nat, yhi: nat, p: nat, s: nat, b: nat, lo: nat)
    requires Dividing(n, z, x, y, q, yhi, 2 * p, s)
    requires yhi == b * p + lo && lo < p && b < 2 && (2 * y) % R == lo * (2 * s) + 2 * q < R - 1
    ensures 2 * x + b < z ==> Dividing(n, z, 2 * x + b, (2 * y) % R, 2 * q, lo, p, 2 * s)
    ensures z <= 2 * x + b ==> Dividing(n, z, 2 * x + b - z, (2 * y) % R + 1, 2 * q + 1, lo, p, 2 * s)
  {
    assert p * (2 * s) == (2 * p) * s;
    calc {
      n;
      (z * q + x) * (2 * p) + (b * p + lo);
      (z * (2 * q) + (2 * x + b)) * p + lo;
    }
    assert z * (2 * q + 1) + (2 * x + b - z) == z * (2 * q) + (2 * x + b);
  }

  /** What the C test `(x | t) >= z` decides: the 65-bit value 2x+b against `z`. */
  lemma CarryTest(x: u64, b: nat, z: u64)
    requires b < 2 && x < z
    ensures
      var t := if x >= R / 2 then R - 1 else 0;
      var x' := Or((2 * x) % R, b);
      && (Or(x', t) >= z <==> 2 * x + b >= z)
      && x' < R
      && (2 * x + b < z ==> x' == 2 * x + b)
      && (2 * x + b >= z ==> (x' - z) % R == 2 * x + b - z)
  {
    hide Or, And, Pow2;
    OrLowBit((2 * x) % R, b);
    ShiftOut(x, b, z);
    Pow2At64();
    MaskOnes((2 * x) % R + b, 64);
    OrZero((2 * x) % R + b);
  }

  lemma OrZero(x: nat)
    ensures Or(x, 0) == x
  {
  }

  lemma ShiftOut(x: u64, b: nat, z: u64)
    requires b < 2 && x < z
    ensures (2 * x) % R + b < R && (2 * x) % R % 2 == 0
    ensures x < R / 2 ==> (2 * x) % R + b == 2 * x + b
    ensures x >= R / 2 ==> 2 * x + b >= z
    ensures 2 * x + b >= z ==> ((2 * x) % R + b - z) % R == 2 * x + b - z
  {
    var w := if x < R / 2 then 2 * x else 2 * x - R;
    assert (2 * x) % R == w;
  }

  /** The remainder of the 128-bit number x:y by z, by 64 shift-subtract steps. */
  method ModUl64(x0: u64, y0: u64, z: u64) returns (x: u64)
    requires x0 < z
    ensures x == (x0 * R + y0) % z
  {
    hide Dividing, Or, Pow2;
    ghost var n := x0 * R + y0;
    var y: u64 := y0;
    x := x0;
    ghost var q: nat, yhi: nat, s: nat := 0, y0, 1;
    DivisionStart(x0, y0, z);
    var i := 1;
    while i <= 64
      invariant 1 <= i <= 65
      invariant Dividing(n, z, x, y, q, yhi, Pow2(65 - i), s)
    {
      ghost var b, lo := NextBit(n, z, x, y, q, yhi, 64 - i, s);
      CarryTest(x, b, z);
      var t := if x >= R / 2 then R - 1 else 0;
      x := Or((2 * x) % R, y / (R / 2));
      y := (2 * y) % R;
      yhi, q, s := lo, 2 * q, 2 * s;
      if Or(x, t) >= z {
        x := (x - z) % R;
        y := (y + 1) % R;
        q := q + 1;
      }
      i := i + 1;
    }
    DivisionEnd(n, z, x, y, q, yhi, s);
  }

  lemma DivisionStart(x: u64, y: u64, z: u64)
    requires x < z
    ensures Dividing(x * R + y, z, x, y, 0, y, Pow2(64), 1)
  {
    Pow2At64();
  }

  lemma NextBit(n: nat, z: u64, x: u64, y: u64, q: nat, yhi: nat, k: nat, s: nat) returns (b: nat, lo: nat)
    requires Dividing(n, z, x, y, q, yhi, Pow2(k + 1), s)
    ensures b == y / (R / 2) && b < 2 && x < z
    ensures 2 * x + b < z ==> Dividing(n, z, 2 * x + b, (2 * y) % R, 2 * q, lo, Pow2(k), 2 * s)
    ensures z <= 2 * x + b ==>
      Dividing(n, z, 2 * x + b - z, ((2 * y) % R + 1) % R, 2 * q + 1, lo, Pow2(k), 2 * s)
  {
    b, lo := TopBit(y, yhi, q, Pow2(k), s);
    DivisionStep(n, z, x, y, q, yhi, Pow2(k), s, b, lo);
  }

  lemma DivisionEnd(n: nat, z: u64, x: u64, y: u64, q: nat, yhi: nat, s: nat)
    requires Dividing(n, z, x, y, q, yhi, Pow2(0), s)
    ensures x == n % z && y == n / z
  {
    assert n == q * z + x;
    DivModUnique(n, z, q, x);
    assert s == R;
  }

  // ---- xbinGCD ----

  /** Bezout relation kept by the binary GCD: 2*alpha*u - beta*v is the power of two `w`
      that one more halving step will use up. */
  ghost predicate Bezout(alpha: u64, beta: u64, u: u64, v: u64, w: nat) {
    2 * alpha * u - beta * v == w && u <= beta && v < 2 * alpha
  }

  /** Halving when `u` is even: `v` is even too, nothing is lost. */
  lemma HalveEven(alpha: u64, beta: u64, u: u64, v: u64, w: nat)
    requires Bezout(alpha, beta, u, v, 2 * w) && beta % 2 == 1 && u % 2 == 0
    ensures v % 2 == 0 && Bezout(alpha, beta, u / 2, v / 2, w)
  {
    VEven(alpha, beta, u, v, w);
    var u', v' := u / 2, v / 2;
    assert 2 * alpha * u == 2 * (2 * alpha * u');
    assert beta * v == 2 * (beta * v');
  }

  lemma VEven(alpha: u64, beta: u64, u: u64, v: u64, w: nat)
    requires 2 * alpha * u - beta * v == 2 * w && beta % 2 == 1
    ensures v % 2 == 0
  {
    var b := beta / 2;
    assert beta * v == 2 * (b * v) + v;
    assert 2 * alpha * u == 2 * (alpha * u);
  }

  /** Halving when `u` is odd: `beta` is added to `u` and `2*alpha` to `v` first. */
  lemma HalveOdd(alpha: u64, beta: u64, u: u64, v: u64, w: nat)
    requires Bezout(alpha, beta, u, v, 2 * w) && beta % 2 == 1 && u % 2 == 1 && w > 0
    ensures v % 2 == 0 && v / 2 + alpha < 2 * alpha && (u + beta) / 2 <= beta
    ensures 2 * alpha * ((u + beta) / 2) - beta * (v / 2 + alpha) == w
  {
    VEven(alpha, beta, u, v, w);
    var u', v' := (u + beta) / 2, v / 2;
    assert u + beta == 2 * u' && v == 2 * v';
    calc {
      2 * (2 * alpha * u' - beta * (v' + alpha));
      2 * alpha * (2 * u') - beta * (2 * v') - 2 * (beta * alpha);
      2 * alpha * (u + beta) - beta * v - 2 * (beta * alpha);
      2 * alpha * u - beta * v;
    }
  }

  /** Dietz's overflow-free average, as the C code writes it. */
  lemma DietzAverage(u: u64, beta: u64)
    ensures Xor(u, beta) / 2 + And(u, beta) == (u + beta) / 2
  {
    XorAndSum(u, beta);
  }

  /** For a power of two `a`, finds u and v with 2au - bv = 1 exactly when `b` is odd;
      `a == 0` is not treated as 2^64. */
  method XbinGcd(a0: u64, b: u64, ghost k0: nat) returns (u: u64, v: u64)
    requires k0 <= 63 && (a0 == 0 || a0 == Pow2(k0))
    ensures 2 * a0 * u - b * v == 1 <==> a0 != 0 && b % 2 == 1
    ensures a0 != 0 && b % 2 == 1 ==> u <= b
    ensures a0 == 0 ==> u == 1 && v == 0
  {
    hide Bezout, Xor, And, Pow2;
    var a := a0;
    u, v := 1, 0;
    var alpha, beta: u64 := a, b;
    ghost var k: int := if a0 == 0 then -1 else k0;
    BezoutStart(a0, b, k0);
    while a > 0
      invariant -1 <= k <= 63 && a == (if k < 0 then 0 else Pow2(k))
      invariant a0 != 0 && b % 2 == 1 ==> Bezout(alpha, beta, u, v, Pow2(k + 1))
      invariant a0 == 0 ==> u == 1 && v == 0
      decreases a
    {
      HalvePow2(k);
      a := a / 2;
      k := k - 1;
      if a0 != 0 && b % 2 == 1 {
        BezoutStep(alpha, beta, u, v, Pow2(k + 1));
      }
      DietzAverage(u, beta);
      if u % 2 == 0 {
        u := u / 2;
        v := v / 2;
      } else {
        u := (Xor(u, beta) / 2 + And(u, beta)) % R;
        v := (v / 2 + alpha) % R;
      }
    }
    BezoutEnd(a0, b, u, v);
  }

  lemma BezoutStart(a: u64, b: u64, k: nat)
    requires k <= 63 && (a == 0 || a == Pow2(k))
    ensures a != 0 && b % 2 == 1 ==> Bezout(a, b, 1, 0, Pow2(k + 1))
    ensures a <= R / 2
  {
    Pow2At64();
    Pow2Add(k, 64 - k);
    assert Pow2(64 - k) == 2 * Pow2(63 - k);
    assert Pow2(k) * Pow2(64 - k) >= Pow2(k) * 2;
  }

  lemma HalvePow2(k: int)
    requires k >= -1
    ensures k >= 0 ==> Pow2(k) / 2 == (if k == 0 then 0 else Pow2(k - 1)) && Pow2(k + 1) == 2 * Pow2(k)
  {
  }

  lemma BezoutStep(alpha: u64, beta: u64, u: u64, v: u64, w: nat)
    requires Bezout(alpha, beta, u, v, 2 * w) && beta % 2 == 1 && w > 0 && alpha <= R / 2
    ensures u % 2 == 0 ==> Bezout(alpha, beta, u / 2, v / 2, w)
    ensures u % 2 == 1 ==> Bezout(alpha, beta, ((u + beta) / 2) % R, (v / 2 + alpha) % R, w)
  {
    hide Bezout;
    if u % 2 == 0 {
      HalveEven(alpha, beta, u, v, w);
    } else {
      HalveOdd(alpha, beta, u, v, w);
      BezoutIntro(alpha, beta, (u + beta) / 2, v / 2 + alpha, w);
    }
  }

  lemma BezoutIntro(alpha: u64, beta: u64, u: u64, v: u64, w: nat)
    requires 2 * alpha * u - beta * v == w && u <= beta && v < 2 * alpha
    ensures Bezout(alpha, beta, u % R, v % R, w)
  {
    assert u % R == u && v % R == v;
  }

  lemma BezoutEnd(a: u64, b: u64, u: u64, v: u64)
    requires a == 0 ==> u == 1 && v == 0
    requires a != 0 && b % 2 == 1 ==> Bezout(a, b, u, v, Pow2(0))
    ensures 2 * a * u - b * v == 1 <==> a != 0 && b % 2 == 1
    ensures a != 0 && b % 2 == 1 ==> u <= b
  {
    if b % 2 == 0 {
      var h := b / 2;
      assert b * v == 2 * (h * v);
      assert 2 * a * u == 2 * (a * u);
    }
  }

  // ---- montmul ----

  function Bit(b: bool): nat { if b then 1 else 0 }

  /** The 128-bit addition of `montmul`: low words, carry, and the overflow flag. */
  lemma CarryExact(thi: u64, tlo: u64, mhi: u64, mlo: u64)
    ensures
      var ulo := (tlo + mlo) % R;
      var uhi := if ulo < tlo then ((thi + mhi) % R + 1) % R else (thi + mhi) % R;
      var ov := Or(Bit(uhi < thi), And(Bit(uhi == thi), Bit(ulo < tlo)));
      && ov == Bit(thi + mhi + Bit(ulo < tlo) >= R)
      && thi + mhi + Bit(ulo < tlo) == ov * R + uhi
      && tlo + mlo == Bit(ulo < tlo) * R + ulo
  {
    var ulo := (tlo + mlo) % R;
    var c := Bit(ulo < tlo);
    AddWrap(tlo, mlo);
    var h := (thi + mhi) % R;
    AddWrap(thi, mhi);
    var uhi := if ulo < tlo then (h + 1) % R else h;
    assert uhi == (if thi + mhi + c >= R then thi + mhi + c - R else thi + mhi + c);
  }

  lemma AddWrap(x: u64, y: u64)
    ensures (x + y) % R == if x + y >= R then x + y - R else x + y
  {
  }

  /** The branch-free last subtraction: the mask is all ones or zero. */
  lemma MaskedSubtract(ov: nat, ulo: u64, m: u64)
    requires ov < 2 && ov * R + ulo < 2 * m
    ensures
      var mask := (R - Or(ov, Bit(ulo >= m))) % R;
      var d := (ulo - And(m, mask)) % R;
      d == (if ov * R + ulo >= m then ov * R + ulo - m else ov * R + ulo) && d < m
  {
    var take := ov == 1 || ulo >= m;
    assert Or(ov, Bit(ulo >= m)) == Bit(take);
    MaskOf(take, m);
    if take {
      WrapDown(ov, ulo, m);
    }
  }

  /** -1 and -0 as 64-bit words, and what masking with them keeps. */
  lemma MaskOf(take: bool, m: u64)
    ensures And(m, (R - Bit(take)) % R) == if take then m else 0
  {
    Pow2At64();
    MaskOnes(m, 64);
    assert (R - Bit(take)) % R == if take then R - 1 else 0;
  }

  lemma WrapDown(ov: nat, ulo: u64, m: u64)
    requires ov < 2 && m <= ov * R + ulo < 2 * m
    ensures (ulo - m) % R == ov * R + ulo - m
  {
    DivModUnique(ulo - m, R, 0 - ov, ov * R + ulo - m);
  }

  /** The low word of t + tm*m vanishes, because m*mprime = -1 modulo 2^64. */
  lemma LowWordVanishes(thi: nat, tlo: u64, m: nat, mprime: nat, rinv: nat, tm: u64, mhi: nat, mlo: u64)
    requires R * rinv - m * mprime == 1
    requires tm == (tlo * mprime) % R && mhi * R + mlo == tm * m
    ensures (tlo + mlo) % R == 0
  {
    var d := (tlo * mprime) / R;
    assert tlo * mprime == d * R + tm;
    calc {
      tlo + tm * m;
      tlo + (tlo * mprime - d * R) * m;
      tlo + tlo * (m * mprime) - (d * m) * R;
      tlo + tlo * (R * rinv - 1) - (d * m) * R;
      (tlo * rinv - d * m) * R;
    }
    DivModUnique(tlo + mlo, R, tlo * rinv - d * m - mhi, 0);
  }

  /** The full reduction stays below 2m. */
  lemma ReductionBound(a: u64, b: u64, m: u64, tm: u64, u: nat)
    requires a < m && b < m && u * R == a * b + tm * m
    ensures u < 2 * m
  {
    MulLe(a, b, m, R - 1);
    MulLe(tm, m, R - 1, m);
    assert u * R < (2 * m) * R;
    assert u >= 2 * m ==> u * R >= (2 * m) * R;
  }

  /** t + tm*m = u*R makes u congruent to t*rinv. */
  lemma ReductionValue(t: nat, m: u64, mprime: nat, rinv: nat, tm: u64, u: nat)
    requires m > 0 && R * rinv - m * mprime == 1 && u * R == t + tm * m
    ensures Cong(u, t * rinv, m)
  {
    calc {
      u - t * rinv;
      u * (R * rinv - m * mprime) - t * rinv;
      (u * R) * rinv - u * mprime * m - t * rinv;
      (t + tm * m) * rinv - u * mprime * m - t * rinv;
      (tm * rinv - u * mprime) * m;
    }
    CongIntro(u, t * rinv, m, tm * rinv - u * mprime);
  }

  /** Montgomery product: the canonical residue of a*b/2^64 modulo m. */
  method MontMul(abar: u64, bbar: u64, m: u64, mprime: u64, ghost rinv: nat) returns (ulo: u64)
    requires abar < m && bbar < m && R * rinv - m * mprime == 1
    ensures ulo < m && ulo == (abar * bbar * rinv) % m
  {
    hide Or, And;
    var thi, tlo := MulUl64(abar, bbar);
    var tm := (tlo * mprime) % R;
    var tmmhi, tmmlo := MulUl64(tm, m);
    LowWordVanishes(thi, tlo, m, mprime, rinv, tm, tmmhi, tmmlo);
    CarryExact(thi, tlo, tmmhi, tmmlo);

    ulo := (tlo + tmmlo) % R;
    var uhi := (thi + tmmhi) % R;
    if ulo < tlo {
      uhi := (uhi + 1) % R;
    }
    var ov := Or(Bit(uhi < thi), And(Bit(uhi == thi), Bit(ulo < tlo)));
    ghost var u := ov * R + uhi;
    assert u * R == abar * bbar + tm * m;
    ReductionBound(abar, bbar, m, tm, u);

    ulo := uhi;
    uhi := 0;
    MaskedSubtract(ov, ulo, m);
    ulo := (ulo - And(m, (R - Or(ov, Bit(ulo >= m))) % R)) % R;

    ReductionValue(abar * bbar, m, mprime, rinv, tm, u);
    CongIntro(ulo, u, m, if u >= m then -1 else 0);
    CongTrans(ulo, u, abar * bbar * rinv, m);
    CongSym(ulo, abar * bbar * rinv, m);
    CongCanonical(abar * bbar * rinv, ulo, m);
  }

  // ---- the benchmark's end-to-end check ----

  /** One squaring in Montgomery form: if p = x*r (mod m) then montmul(p, p) = x*x*r. */
  lemma MontStep(p: nat, q: nat, x: nat, y: nat, m: u64, mprime: nat, rinv: nat)
    requires m > 0 && R * rinv - m * mprime == 1
    requires Cong(p, x * R, m) && Cong(q, y * R, m)
    ensures Cong(p * q * rinv, (x * y) * R, m)
  {
    CongMul(p, x * R, q, y * R, m);
    CongIntro(rinv, rinv, m, 0);
    CongMul(p * q, (x * R) * (y * R), rinv, rinv, m);
    calc {
      ((x * R) * (y * R)) * rinv - (x * y) * R;
      ((x * y) * R) * (R * rinv) - (x * y) * R;
      ((x * y) * R) * (1 + m * mprime) - (x * y) * R;
      (((x * y) * R) * mprime) * m;
    }
    CongIntro(((x * R) * (y * R)) * rinv, (x * y) * R, m, ((x * y) * R) * mprime);
    CongTrans(p * q * rinv, ((x * R) * (y * R)) * rinv, (x * y) * R, m);
  }

  /** Leaving Montgomery form. */
  lemma MontLeave(p: nat, x: nat, m: u64, mprime: nat, rinv: nat)
    requires m > 0 && R * rinv - m * mprime == 1 && Cong(p, x * R, m)
    ensures Cong(p * rinv, x, m)
  {
    CongIntro(rinv, rinv, m, 0);
    CongMul(p, x * R, rinv, rinv, m);
    calc {
      (x * R) * rinv - x;
      x * (R * rinv) - x;
      x * (1 + m * mprime) - x;
      (x * mprime) * m;
    }
    CongIntro((x * R) * rinv, x, m, x * mprime);
    CongTrans(p * rinv, (x * R) * rinv, x, m);
  }

  /** A 128-bit product reduced by `modul64`: exact whenever one factor is at most m and the other below. */
  method MulMod(x: u64, y: u64, m: u64) returns (p: u64)
    requires x < m && y <= m
    ensures p == (x * y) % m && p < m
  {
    var hi, lo := MulUl64(x, y);
    MulLe(x, y, m - 1, R - 1);
    assert hi < m by {
      assert hi >= m ==> hi * R >= m * R;
    }
    p := ModUl64(hi, lo, m);
  }

  lemma NaivePowers(x: nat, n1: nat, n2: nat, n3: nat, m: u64)
    requires m > 0 && n1 == x % m && n2 == (n1 * n1) % m && n3 == (n2 * n2) % m
    ensures n3 == ((x * x) * (x * x)) % m
  {
    CongMod(x, m);
    CongMul(n1, x, n1, x, m);
    CongMod(n1 * n1, m);
    CongTrans(n2, n1 * n1, x * x, m);
    CongMul(n2, x * x, n2, x * x, m);
    CongMod(n2 * n2, m);
    CongTrans(n3, n2 * n2, (x * x) * (x * x), m);
    CongSym(n3, (x * x) * (x * x), m);
    CongCanonical((x * x) * (x * x), n3, m);
  }

  /** The partial check of the benchmark, on low-order halves of the products. */
  lemma InverseCheck(m: u64, rinv: u64, mprime: u64)
    requires R * rinv - m * mprime == 1
    ensures ((2 * (R / 2)) % R * rinv) % R == 0
    ensures (0 - (m * mprime) % R) % R == 1
  {
    DivModUnique(m * mprime, R, rinv - 1, R - 1);
  }

  /** One Montgomery product keeps the form x*r (mod m). */
  lemma MontNext(abar: u64, bbar: u64, p: u64, x: nat, y: nat, m: u64, mprime: u64, rinv: nat)
    requires m > 0 && R * rinv - m * mprime == 1
    requires Cong(abar, x * R, m) && Cong(bbar, y * R, m) && p == (abar * bbar * rinv) % m
    ensures Cong(p, (x * y) * R, m)
  {
    MontStep(abar, bbar, x, y, m, mprime, rinv);
    CongMod(abar * bbar * rinv, m);
    CongTrans(p, abar * bbar * rinv, (x * y) * R, m);
  }

  lemma ProductNat(a: nat, b: nat)
    ensures a * b >= 0
  {
  }

  lemma LeaveCanonical(q: nat, x: nat, p: nat, m: u64)
    requires m > 0 && Cong(q, x, m) && p == q % m
    ensures p == x % m
  {
    CongMod(q, m);
    CongTrans(p, q, x, m);
    CongSym(p, x, m);
    CongCanonical(x, p, m);
  }

  /** The naive path and the Montgomery path of the benchmark both give (a*b)^4 mod m,
      so it never counts an error. */
  method BenchmarkBody(a: u64, b: u64, m: u64) returns (errors: int, p1: u64, p: u64)
    requires m % 2 == 1 && a < m && b < m
    ensures errors == 0
    ensures p == p1 == ((a * b) * (a * b)) * ((a * b) * (a * b)) % m
  {
    hide Cong, Pow2;
    errors := 0;
    ghost var x1 := a * b;
    ghost var x2 := x1 * x1;
    ghost var x4 := x2 * x2;

    p1 := MulMod(a, b, m);
    ghost var n1 := p1;
    p1 := MulMod(p1, p1, m);
    ghost var n2 := p1;
    p1 := MulMod(p1, p1, m);
    NaivePowers(x1, n1, n2, p1, m);

    var hr: u64 := 0x8000_0000_0000_0000;
    Pow2At64();
    var rinv, mprime := XbinGcd(hr, m, 63);
    assert R * rinv - m * mprime == 1;
    InverseCheck(m, rinv, mprime);
    if (((2 * hr) % R * rinv) % R - (m * mprime) % R) % R != 1 {
      errors := 1;
    }

    var abar := ModUl64(a, 0, m);
    var bbar := ModUl64(b, 0, m);
    CongMod(a * R, m);
    CongMod(b * R, m);

    p := MontMul(abar, bbar, m, mprime, rinv);
    MontNext(abar, bbar, p, a, b, m, mprime, rinv);
    ghost var q1 := p;
    p := MontMul(p, p, m, mprime, rinv);
    MontNext(q1, q1, p, x1, x1, m, mprime, rinv);
    ghost var q2 := p;
    p := MontMul(p, p, m, mprime, rinv);
    MontNext(q2, q2, p, x2, x2, m, mprime, rinv);

    MontLeave(p, x4, m, mprime, rinv);
    ghost var q3 := p * rinv;
    ProductNat(p, rinv);
    p := MulMod(p, rinv, m);
    LeaveCanonical(q3, x4, p, m);
    if p != p1 {
      errors := 1;
    }
  }
}
