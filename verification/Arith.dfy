/** Integer facts shared by the arithmetic models: division with a known quotient,
    congruence, and the bitwise operators of C on non-negative integers. */
module Arith {

  /** The remainder of a division is known as soon as a quotient is. */
  lemma DivModUnique(x: int, m: int, q: int, r: int)
    requires 0 < m && 0 <= r < m && x == q * m + r
    ensures x / m == q && x % m == r
  {
    var d := x / m - q;
    assert x == (x / m) * m + x % m;
    assert d * m == r - x % m;
    assert d >= 1 ==> d * m >= m;
    assert d <= -1 ==> d * m <= -m;
  }

  lemma MulLe(x: nat, y: nat, a: nat, b: nat)
    requires x <= a && y <= b
    ensures x * y <= a * b
  {
    assert x * y <= a * y;
    assert a * y <= a * b;
  }

  /** `x` and `y` leave the same remainder modulo `m`. */
  ghost predicate Cong(x: int, y: int, m: int)
    requires m > 0
  {
    exists k: int :: x - y == k * m
  }

  lemma CongIntro(x: int, y: int, m: int, k: int)
    requires m > 0 && x - y == k * m
    ensures Cong(x, y, m)
  {
  }

  lemma CongMod(x: int, m: int)
    requires m > 0
    ensures Cong(x, x % m, m) && Cong(x % m, x, m)
  {
    CongIntro(x, x % m, m, x / m);
    CongIntro(x % m, x, m, -(x / m));
  }

  lemma CongSym(x: int, y: int, m: int)
    requires m > 0 && Cong(x, y, m)
    ensures Cong(y, x, m)
  {
    var k :| x - y == k * m;
    CongIntro(y, x, m, -k);
  }

  lemma CongTrans(x: int, y: int, z: int, m: int)
    requires m > 0 && Cong(x, y, m) && Cong(y, z, m)
    ensures Cong(x, z, m)
  {
    var k :| x - y == k * m;
    var l :| y - z == l * m;
    assert x - z == (k + l) * m;
    CongIntro(x, z, m, k + l);
  }

  lemma CongMul(x: int, y: int, z: int, w: int, m: int)
    requires m > 0 && Cong(x, y, m) && Cong(z, w, m)
    ensures Cong(x * z, y * w, m)
  {
    var k :| x - y == k * m;
    var l :| z - w == l * m;
    calc {
      x * z - y * w;
      (x - y) * z + y * (z - w);
      (k * m) * z + y * (l * m);
      (k * z + y * l) * m;
    }
    CongIntro(x * z, y * w, m, k * z + y * l);
  }

  /** A residue in range is the remainder. */
  lemma CongCanonical(x: int, r: int, m: int)
    requires m > 0 && 0 <= r < m && Cong(x, r, m)
    ensures x % m == r
  {
    var k :| x - r == k * m;
    DivModUnique(x, m, k, r);
  }

  // ---- bitwise operators of C, digit by digit ----

  function And(x: nat, y: nat): nat {
    if x == 0 || y == 0 then 0
    else 2 * And(x / 2, y / 2) + (if x % 2 == 1 && y % 2 == 1 then 1 else 0)
  }

  function Or(x: nat, y: nat): nat
    decreases x + y
  {
    if x == 0 then y else if y == 0 then x
    else 2 * Or(x / 2, y / 2) + (if x % 2 == 1 || y % 2 == 1 then 1 else 0)
  }

  function Xor(x: nat, y: nat): nat
    decreases x + y
  {
    if x == 0 then y else if y == 0 then x
    else 2 * Xor(x / 2, y / 2) + (if x % 2 != y % 2 then 1 else 0)
  }

  function Pow2(n: nat): (r: nat)
    ensures r > 0
  {
    if n == 0 then 1 else 2 * Pow2(n - 1)
  }

  lemma {:induction false} Pow2Add(a: nat, b: nat)
    ensures Pow2(a + b) == Pow2(a) * Pow2(b)
  {
    if a != 0 {
      Pow2Add(a - 1, b);
      assert a + b - 1 == a - 1 + b;
    }
  }

  lemma {:induction false} Pow2Grows(a: nat, b: nat)
    requires a <= b
    ensures Pow2(a) <= Pow2(b)
  {
    if a < b { Pow2Grows(a, b - 1); }
  }

  /** An all-ones mask: `or` sets every bit, `and` keeps every bit. */
  lemma {:induction false} MaskOnes(x: nat, n: nat)
    requires x < Pow2(n)
    ensures Or(x, Pow2(n) - 1) == Pow2(n) - 1
    ensures And(x, Pow2(n) - 1) == x
  {
    if n != 0 && x != 0 {
      MaskOnes(x / 2, n - 1);
      assert (Pow2(n) - 1) / 2 == Pow2(n - 1) - 1;
    }
  }

  /** `or` into a cleared low bit is addition. */
  lemma OrLowBit(x: nat, b: nat)
    requires x % 2 == 0 && b < 2
    ensures Or(x, b) == x + b
  {
    assert Or(x / 2, 0) == x / 2;
  }

  /** `or` of a number below 2^k with a multiple of 2^k is addition. */
  lemma {:induction false} OrDisjoint(a: nat, k: nat, b: nat)
    requires b < Pow2(k)
    ensures Or(a * Pow2(k), b) == a * Pow2(k) + b
  {
    if k > 0 && b != 0 {
      OrDisjoint(a, k - 1, b / 2);
      assert a * Pow2(k) == 2 * (a * Pow2(k - 1));
    }
  }

  lemma AndDouble(x: nat, y: nat)
    ensures And(x, 2 * y) == 2 * And(x / 2, y)
  {
  }

  lemma AndQuadruple(x: nat, y: nat)
    ensures And(x, 4 * y) == 4 * And(x / 4, y)
  {
    hide And;
    AndDouble(x, 2 * y);
    AndDouble(x / 2, y);
    assert x / 2 / 2 == x / 4;
  }

  lemma AndShifted8(x: nat, m: nat)
    ensures And(x, 0x100 * m) == 0x100 * And(x / 0x100, m)
  {
    hide And;
    AndQuadruple(x, 64 * m);
    AndQuadruple(x / 4, 16 * m);
    AndQuadruple(x / 16, 4 * m);
    AndQuadruple(x / 64, m);
    assert x / 4 / 4 == x / 16 && x / 16 / 4 == x / 64 && x / 64 / 4 == x / 0x100;
  }

  /** Dietz: a sum splits into the bits that differ and the carries. */
  lemma {:induction false} XorAndSum(x: nat, y: nat)
    ensures x + y == Xor(x, y) + 2 * And(x, y)
    decreases x + y
  {
    if x != 0 && y != 0 {
      XorAndSum(x / 2, y / 2);
    }
  }

  lemma Pow2At32()
    ensures Pow2(32) == 0x1_0000_0000 && Pow2(1) == 2
  {
    assert Pow2(8) == 256;
    Pow2Add(8, 8);
    Pow2Add(16, 16);
  }

  lemma Pow2At64()
    ensures Pow2(64) == 0x1_0000_0000_0000_0000 && Pow2(63) == 0x8000_0000_0000_0000
  {
    Pow2At32();
    Pow2Add(32, 32);
    assert Pow2(64) == 2 * Pow2(63);
  }

  /** A part of a part. */
  lemma PartOfPart<T>(s: seq<T>, a: nat, b: nat, c: nat, d: nat)
    requires a <= b <= |s| && c <= d <= b - a
    ensures s[a..b][c..d] == s[a + c..a + d]
  {
    var t, v := s[a..b], s[a + c..a + d];
    assert forall i :: 0 <= i < d - c ==> t[c..d][i] == t[c + i] == s[a + (c + i)] == v[i];
  }
}
