/** Where the constants of SHA-256 come from (section 4.2.2 and section 5.3.3 of FIPS 180-4): the first 32 bits of the
    fractions of the cube roots and square roots of the first primes. */
module Sha256Constants {
  import Arith
  import opened Sha256

  // ---- the first sixty-four primes ----

  ghost predicate IsPrime(n: nat) { n >= 2 && forall d: nat :: 2 <= d < n ==> n % d != 0 }

  const PRIMES: seq<seq<nat>> := [
    [2, 3, 5, 7, 11, 13, 17, 19],
    [23, 29, 31, 37, 41, 43, 47, 53],
    [59, 61, 67, 71, 73, 79, 83, 89],
    [97, 101, 103, 107, 109, 113, 127, 131],
    [137, 139, 149, 151, 157, 163, 167, 173],
    [179, 181, 191, 193, 197, 199, 211, 223],
    [227, 229, 233, 239, 241, 251, 257, 263],
    [269, 271, 277, 281, 283, 293, 307, 311]
  ]

  lemma PrimeRows()
    ensures |PRIMES| == 8 && forall r :: 0 <= r < 8 ==> |PRIMES[r]| == 8
  {
  }

  /** Prime number i, counting from 0. */
  function PrimeAt(i: nat): nat
    requires i < 64
  {
    PrimeRows();
    PRIMES[i / 8][i % 8]
  }

  /** None of the primes up to 17 divides n, or it is n. */
  predicate Survives(n: nat) {
    && n >= 2 && (n == 2 || n % 2 != 0) && (n == 3 || n % 3 != 0) && (n == 5 || n % 5 != 0) && (n == 7 || n % 7 != 0)
    && (n == 11 || n % 11 != 0) && (n == 13 || n % 13 != 0) && (n == 17 || n % 17 != 0)
  }

  lemma FactorOfFactor(n: nat, p: nat, q: nat)
    requires p >= 1 && q >= 1 && n % (p * q) == 0
    ensures n % p == 0
  {
    var k := n / (p * q);
    assert n == (p * q) * k == p * (q * k);
    Arith.DivModUnique(n, p, q * k, 0);
  }

  /** A factor up to 17 has one of the primes up to 17 in it. */
  lemma PrimeBelow(n: nat, d: nat)
    requires 2 <= d <= 17 && n % d == 0
    ensures
      || n % 2 == 0 || (d >= 3 && n % 3 == 0) || (d >= 5 && n % 5 == 0) || (d >= 7 && n % 7 == 0)
      || (d >= 11 && n % 11 == 0) || (d >= 13 && n % 13 == 0) || (d >= 17 && n % 17 == 0)
  {
    if d % 2 == 0 {
      FactorOfFactor(n, 2, d / 2);
    } else if d % 3 == 0 {
      FactorOfFactor(n, 3, d / 3);
    } else {
      assert d == 5 || d == 7 || d == 11 || d == 13 || d == 17;
    }
  }

  lemma NoFactor(n: nat, d: nat)
    requires n < 324 && Survives(n) && 2 <= d < n
    ensures n % d != 0
  {
    if n % d == 0 {
      var e := n / d;
      assert n == d * e == e * d;
      SomeFactorSmall(d, e);
      if d <= 17 {
        PrimeBelow(n, d);
      } else {
        Arith.DivModUnique(n, e, d, 0);
        PrimeBelow(n, e);
      }
    }
  }

  lemma SomeFactorSmall(d: nat, e: nat)
    requires 2 <= d < d * e < 324
    ensures 2 <= e < d * e && (d <= 17 || e <= 17)
  {
    assert e == 0 ==> d * e == 0;
    assert e == 1 ==> d * e == d;
    Arith.MulLe(2, e, d, e);
    if d > 17 && e > 17 { Arith.MulLe(18, 18, d, e); }
  }

  /** Below 18 squared these are the primes. */
  lemma SurvivorsArePrime(n: nat)
    requires n < 324
    ensures Survives(n) <==> IsPrime(n)
  {
    if Survives(n) {
      forall d: nat | 2 <= d < n ensures n % d != 0 { NoFactor(n, d); }
    }
  }

  lemma PrimeRow0(n: nat)
    requires 0 <= n < 23
    ensures |PRIMES| == 8 && (IsPrime(n) <==> n in PRIMES[0])
  {
    hide IsPrime;
    SurvivorsArePrime(n);
    assert n == 2 * (n / 2) || n == 2 * (n / 2) + 1;
    assert n / 2 == 0 || n / 2 == 1 || n / 2 == 2 || n / 2 == 3 || n / 2 == 4 || n / 2 == 5 || n / 2 == 6 ||
        n / 2 == 7 || n / 2 == 8 || n / 2 == 9 || n / 2 == 10 || n / 2 == 11;
  }

  lemma PrimeRow1(n: nat)
    requires 23 <= n < 59
    ensures |PRIMES| == 8 && (IsPrime(n) <==> n in PRIMES[1])
  {
    hide IsPrime;
    SurvivorsArePrime(n);
    assert n == 2 * (n / 2) || n == 2 * (n / 2) + 1;
    assert n / 2 == 11 || n / 2 == 12 || n / 2 == 13 || n / 2 == 14 || n / 2 == 15 || n / 2 == 16 || n / 2 == 17 ||
        n / 2 == 18 || n / 2 == 19 || n / 2 == 20 || n / 2 == 21 || n / 2 == 22 || n / 2 == 23 || n / 2 == 24 ||
        n / 2 == 25 || n / 2 == 26 || n / 2 == 27 || n / 2 == 28 || n / 2 == 29;
  }

  lemma PrimeRow2(n: nat)
    requires 59 <= n < 97
    ensures |PRIMES| == 8 && (IsPrime(n) <==> n in PRIMES[2])
  {
    hide IsPrime;
    SurvivorsArePrime(n);
    assert n == 2 * (n / 2) || n == 2 * (n / 2) + 1;
    assert n / 2 == 29 || n / 2 == 30 || n / 2 == 31 || n / 2 == 32 || n / 2 == 33 || n / 2 == 34 || n / 2 == 35 ||
        n / 2 == 36 || n / 2 == 37 || n / 2 == 38 || n / 2 == 39 || n / 2 == 40 || n / 2 == 41 || n / 2 == 42 ||
        n / 2 == 43 || n / 2 == 44 || n / 2 == 45 || n / 2 == 46 || n / 2 == 47 || n / 2 == 48;
  }

  lemma PrimeRow3(n: nat)
    requires 97 <= n < 137
    ensures |PRIMES| == 8 && (IsPrime(n) <==> n in PRIMES[3])
  {
    hide IsPrime;
    SurvivorsArePrime(n);
    assert n == 2 * (n / 2) || n == 2 * (n / 2) + 1;
    assert n / 2 == 48 || n / 2 == 49 || n / 2 == 50 || n / 2 == 51 || n / 2 == 52 || n / 2 == 53 || n / 2 == 54 ||
        n / 2 == 55 || n / 2 == 56 || n / 2 == 57 || n / 2 == 58 || n / 2 == 59 || n / 2 == 60 || n / 2 == 61 ||
        n / 2 == 62 || n / 2 == 63 || n / 2 == 64 || n / 2 == 65 || n / 2 == 66 || n / 2 == 67 || n / 2 == 68;
  }

  lemma PrimeRow4(n: nat)
    requires 137 <= n < 179
    ensures |PRIMES| == 8 && (IsPrime(n) <==> n in PRIMES[4])
  {
    hide IsPrime;
    SurvivorsArePrime(n);
    assert n == 2 * (n / 2) || n == 2 * (n / 2) + 1;
    assert n / 2 == 68 || n / 2 == 69 || n / 2 == 70 || n / 2 == 71 || n / 2 == 72 || n / 2 == 73 || n / 2 == 74 ||
        n / 2 == 75 || n / 2 == 76 || n / 2 == 77 || n / 2 == 78 || n / 2 == 79 || n / 2 == 80 || n / 2 == 81 ||
        n / 2 == 82 || n / 2 == 83 || n / 2 == 84 || n / 2 == 85 || n / 2 == 86 || n / 2 == 87 || n / 2 == 88 ||
        n / 2 == 89;
  }

  lemma PrimeRow5(n: nat)
    requires 179 <= n < 227
    ensures |PRIMES| == 8 && (IsPrime(n) <==> n in PRIMES[5])
  {
    hide IsPrime;
    SurvivorsArePrime(n);
    assert n == 2 * (n / 2) || n == 2 * (n / 2) + 1;
    assert n / 2 == 89 || n / 2 == 90 || n / 2 == 91 || n / 2 == 92 || n / 2 == 93 || n / 2 == 94 || n / 2 == 95 ||
        n / 2 == 96 || n / 2 == 97 || n / 2 == 98 || n / 2 == 99 || n / 2 == 100 || n / 2 == 101 || n / 2 == 102 ||
        n / 2 == 103 || n / 2 == 104 || n / 2 == 105 || n / 2 == 106 || n / 2 == 107 || n / 2 == 108 ||
        n / 2 == 109 || n / 2 == 110 || n / 2 == 111 || n / 2 == 112 || n / 2 == 113;
  }

  lemma PrimeRow6(n: nat)
    requires 227 <= n < 269
    ensures |PRIMES| == 8 && (IsPrime(n) <==> n in PRIMES[6])
  {
    hide IsPrime;
    SurvivorsArePrime(n);
    assert n == 2 * (n / 2) || n == 2 * (n / 2) + 1;
    assert n / 2 == 113 || n / 2 == 114 || n / 2 == 115 || n / 2 == 116 || n / 2 == 117 || n / 2 == 118 ||
        n / 2 == 119 || n / 2 == 120 || n / 2 == 121 || n / 2 == 122 || n / 2 == 123 || n / 2 == 124 ||
        n / 2 == 125 || n / 2 == 126 || n / 2 == 127 || n / 2 == 128 || n / 2 == 129 || n / 2 == 130 ||
        n / 2 == 131 || n / 2 == 132 || n / 2 == 133 || n / 2 == 134;
  }

  lemma PrimeRow7(n: nat)
    requires 269 <= n < 312
    ensures |PRIMES| == 8 && (IsPrime(n) <==> n in PRIMES[7])
  {
    hide IsPrime;
    SurvivorsArePrime(n);
    assert n == 2 * (n / 2) || n == 2 * (n / 2) + 1;
    assert n / 2 == 134 || n / 2 == 135 || n / 2 == 136 || n / 2 == 137 || n / 2 == 138 || n / 2 == 139 ||
        n / 2 == 140 || n / 2 == 141 || n / 2 == 142 || n / 2 == 143 || n / 2 == 144 || n / 2 == 145 ||
        n / 2 == 146 || n / 2 == 147 || n / 2 == 148 || n / 2 == 149 || n / 2 == 150 || n / 2 == 151 ||
        n / 2 == 152 || n / 2 == 153 || n / 2 == 154 || n / 2 == 155;
  }

  predicate Ascends(s: seq<nat>) { forall i, j :: 0 <= i < j < |s| ==> s[i] < s[j] }

  lemma PrimeBounds()
    ensures |PRIMES| == 8 && forall r :: 0 <= r < 8 ==> |PRIMES[r]| == 8
    ensures forall c :: 0 <= c < 8 ==> 0 <= PRIMES[0][c] < 23
    ensures forall c :: 0 <= c < 8 ==> 23 <= PRIMES[1][c] < 59
    ensures forall c :: 0 <= c < 8 ==> 59 <= PRIMES[2][c] < 97
    ensures forall c :: 0 <= c < 8 ==> 97 <= PRIMES[3][c] < 137
    ensures forall c :: 0 <= c < 8 ==> 137 <= PRIMES[4][c] < 179
    ensures forall c :: 0 <= c < 8 ==> 179 <= PRIMES[5][c] < 227
    ensures forall c :: 0 <= c < 8 ==> 227 <= PRIMES[6][c] < 269
    ensures forall c :: 0 <= c < 8 ==> 269 <= PRIMES[7][c] < 312
  {
  }

  lemma Ascending(s: seq<nat>)
    requires |s| == 8
    requires s[0] < s[1] < s[2] < s[3] < s[4] < s[5] < s[6] < s[7]
    ensures Ascends(s)
  {
  }

  lemma RowAscends0()
    ensures |PRIMES| == 8 && |PRIMES[0]| == 8 && Ascends(PRIMES[0])
  {
    Ascending(PRIMES[0]);
  }

  lemma RowAscends1()
    ensures |PRIMES| == 8 && |PRIMES[1]| == 8 && Ascends(PRIMES[1])
  {
    Ascending(PRIMES[1]);
  }

  lemma RowAscends2()
    ensures |PRIMES| == 8 && |PRIMES[2]| == 8 && Ascends(PRIMES[2])
  {
    Ascending(PRIMES[2]);
  }

  lemma RowAscends3()
    ensures |PRIMES| == 8 && |PRIMES[3]| == 8 && Ascends(PRIMES[3])
  {
    Ascending(PRIMES[3]);
  }

  lemma RowAscends4()
    ensures |PRIMES| == 8 && |PRIMES[4]| == 8 && Ascends(PRIMES[4])
  {
    Ascending(PRIMES[4]);
  }

  lemma RowAscends5()
    ensures |PRIMES| == 8 && |PRIMES[5]| == 8 && Ascends(PRIMES[5])
  {
    Ascending(PRIMES[5]);
  }

  lemma RowAscends6()
    ensures |PRIMES| == 8 && |PRIMES[6]| == 8 && Ascends(PRIMES[6])
  {
    Ascending(PRIMES[6]);
  }

  lemma RowAscends7()
    ensures |PRIMES| == 8 && |PRIMES[7]| == 8 && Ascends(PRIMES[7])
  {
    Ascending(PRIMES[7]);
  }

  lemma ListedAt(n: nat, r: nat)
    requires r < 8
    ensures |PRIMES| == 8 && |PRIMES[r]| == 8
    ensures n in PRIMES[r] ==> exists i: nat :: i < 64 && PrimeAt(i) == n
  {
    hide PRIMES;
    PrimeRows();
    if n in PRIMES[r] {
      var c :| 0 <= c < 8 && PRIMES[r][c] == n;
      assert PrimeAt(8 * r + c) == n;
    }
  }

  lemma ListedIsPrime(i: nat)
    requires i < 64
    ensures PrimeAt(i) < 312 && IsPrime(PrimeAt(i))
  {
    hide IsPrime, PRIMES;
    PrimeBounds();
    var p := PrimeAt(i);
    assert p == PRIMES[i / 8][i % 8];
    if i < 8 {
      PrimeRow0(p);
    } else if i < 16 {
      PrimeRow1(p);
    } else if i < 24 {
      PrimeRow2(p);
    } else if i < 32 {
      PrimeRow3(p);
    } else if i < 40 {
      PrimeRow4(p);
    } else if i < 48 {
      PrimeRow5(p);
    } else if i < 56 {
      PrimeRow6(p);
    } else {
      PrimeRow7(p);
    }
  }

  /** The table lists exactly the primes below 312, ... */
  lemma PrimesListed(n: nat)
    requires n < 312
    ensures IsPrime(n) <==> exists i: nat :: i < 64 && PrimeAt(i) == n
  {
    hide IsPrime, PRIMES;
    if n < 23 {
      PrimeRow0(n);
      ListedAt(n, 0);
    } else if n < 59 {
      PrimeRow1(n);
      ListedAt(n, 1);
    } else if n < 97 {
      PrimeRow2(n);
      ListedAt(n, 2);
    } else if n < 137 {
      PrimeRow3(n);
      ListedAt(n, 3);
    } else if n < 179 {
      PrimeRow4(n);
      ListedAt(n, 4);
    } else if n < 227 {
      PrimeRow5(n);
      ListedAt(n, 5);
    } else if n < 269 {
      PrimeRow6(n);
      ListedAt(n, 6);
    } else {
      PrimeRow7(n);
      ListedAt(n, 7);
    }
    if exists i: nat :: i < 64 && PrimeAt(i) == n {
      var i: nat :| i < 64 && PrimeAt(i) == n;
      ListedIsPrime(i);
    }
  }

  lemma RowAscends(r: nat)
    requires r < 8
    ensures |PRIMES| == 8 && |PRIMES[r]| == 8 && Ascends(PRIMES[r])
  {
    hide PRIMES, Ascends;
    if r == 0 {
      RowAscends0();
    } else if r == 1 {
      RowAscends1();
    } else if r == 2 {
      RowAscends2();
    } else if r == 3 {
      RowAscends3();
    } else if r == 4 {
      RowAscends4();
    } else if r == 5 {
      RowAscends5();
    } else if r == 6 {
      RowAscends6();
    } else {
      RowAscends7();
    }
  }

  /** ... in ascending order. */
  lemma PrimesAscend(i: nat)
    requires i < 63
    ensures PrimeAt(i) < PrimeAt(i + 1)
  {
    hide PRIMES;
    PrimeBounds();
    RowAscends(i / 8);
    if i % 8 == 7 {
      assert (i + 1) / 8 == i / 8 + 1 && (i + 1) % 8 == 0;
      var r := i / 8;
      assert r == 0 || r == 1 || r == 2 || r == 3 || r == 4 || r == 5 || r == 6;
    } else {
      assert (i + 1) / 8 == i / 8 && (i + 1) % 8 == i % 8 + 1;
    }
  }

  // ---- the roots ----

  /** x is the integer part of the cube root of p times 2^32. */
  predicate CubeRoot(p: nat, x: nat) {
    x * x * x <= p * 0x1_0000_0000_0000_0000_0000_0000 < (x + 1) * (x + 1) * (x + 1)
  }

  /** x is the integer part of the square root of p times 2^32. */
  predicate SquareRoot(p: nat, x: nat) { x * x <= p * 0x1_0000_0000_0000_0000 < (x + 1) * (x + 1) }

  /** K(i) is the first 32 bits of the fraction of the cube root of prime i. */
  ghost predicate IsCubeFraction(i: nat)
    requires i < 64
  {
    exists q: nat :: CubeRoot(PrimeAt(i), q * 0x1_0000_0000 + K(i) as nat)
  }

  /** Word i of H0 is the first 32 bits of the fraction of the square root of prime i. */
  ghost predicate IsSquareFraction(i: nat)
    requires i < 8
  {
    TableSizes();
    exists q: nat :: SquareRoot(PrimeAt(i), q * 0x1_0000_0000 + H0[i] as nat)
  }

  lemma CubeFraction(i: nat, p: nat, q: nat, w: bv32, x: nat)
    requires i < 64 && PrimeAt(i) == p && K(i) == w && x == q * 0x1_0000_0000 + w as nat && CubeRoot(p, x)
    ensures IsCubeFraction(i)
  {
    hide K, PrimeAt, CubeRoot;
  }

  lemma SquareFraction(i: nat, p: nat, q: nat, w: bv32, x: nat)
    requires i < 8 && PrimeAt(i) == p && |H0| == 8 && H0[i] == w && x == q * 0x1_0000_0000 + w as nat
      && SquareRoot(p, x)
    ensures IsSquareFraction(i)
  {
    hide H0, PrimeAt, SquareRoot;
  }

  lemma CubeRow0()
    ensures forall i :: 0 <= i < 8 ==> IsCubeFraction(i)
  {
    hide IsCubeFraction;
    CubeFraction(0, 2, 1, 0x428a2f98, 0x1428a2f98);
    CubeFraction(1, 3, 1, 0x71374491, 0x171374491);
    CubeFraction(2, 5, 1, 0xb5c0fbcf, 0x1b5c0fbcf);
    CubeFraction(3, 7, 1, 0xe9b5dba5, 0x1e9b5dba5);
    CubeFraction(4, 11, 2, 0x3956c25b, 0x23956c25b);
    CubeFraction(5, 13, 2, 0x59f111f1, 0x259f111f1);
    CubeFraction(6, 17, 2, 0x923f82a4, 0x2923f82a4);
    CubeFraction(7, 19, 2, 0xab1c5ed5, 0x2ab1c5ed5);
  }

  lemma CubeRow1()
    ensures forall i :: 8 <= i < 16 ==> IsCubeFraction(i)
  {
    hide IsCubeFraction;
    CubeFraction(8, 23, 2, 0xd807aa98, 0x2d807aa98);
    CubeFraction(9, 29, 3, 0x12835b01, 0x312835b01);
    CubeFraction(10, 31, 3, 0x243185be, 0x3243185be);
    CubeFraction(11, 37, 3, 0x550c7dc3, 0x3550c7dc3);
    CubeFraction(12, 41, 3, 0x72be5d74, 0x372be5d74);
    CubeFraction(13, 43, 3, 0x80deb1fe, 0x380deb1fe);
    CubeFraction(14, 47, 3, 0x9bdc06a7, 0x39bdc06a7);
    CubeFraction(15, 53, 3, 0xc19bf174, 0x3c19bf174);
  }

  lemma CubeRow2()
    ensures forall i :: 16 <= i < 24 ==> IsCubeFraction(i)
  {
    hide IsCubeFraction;
    CubeFraction(16, 59, 3, 0xe49b69c1, 0x3e49b69c1);
    CubeFraction(17, 61, 3, 0xefbe4786, 0x3efbe4786);
    CubeFraction(18, 67, 4, 0x0fc19dc6, 0x40fc19dc6);
    CubeFraction(19, 71, 4, 0x240ca1cc, 0x4240ca1cc);
    CubeFraction(20, 73, 4, 0x2de92c6f, 0x42de92c6f);
    CubeFraction(21, 79, 4, 0x4a7484aa, 0x44a7484aa);
    CubeFraction(22, 83, 4, 0x5cb0a9dc, 0x45cb0a9dc);
    CubeFraction(23, 89, 4, 0x76f988da, 0x476f988da);
  }

  lemma CubeRow3()
    ensures forall i :: 24 <= i < 32 ==> IsCubeFraction(i)
  {
    hide IsCubeFraction;
    CubeFraction(24, 97, 4, 0x983e5152, 0x4983e5152);
    CubeFraction(25, 101, 4, 0xa831c66d, 0x4a831c66d);
    CubeFraction(26, 103, 4, 0xb00327c8, 0x4b00327c8);
    CubeFraction(27, 107, 4, 0xbf597fc7, 0x4bf597fc7);
    CubeFraction(28, 109, 4, 0xc6e00bf3, 0x4c6e00bf3);
    CubeFraction(29, 113, 4, 0xd5a79147, 0x4d5a79147);
    CubeFraction(30, 127, 5, 0x06ca6351, 0x506ca6351);
    CubeFraction(31, 131, 5, 0x14292967, 0x514292967);
  }

  lemma CubeRow4()
    ensures forall i :: 32 <= i < 40 ==> IsCubeFraction(i)
  {
    hide IsCubeFraction;
    CubeFraction(32, 137, 5, 0x27b70a85, 0x527b70a85);
    CubeFraction(33, 139, 5, 0x2e1b2138, 0x52e1b2138);
    CubeFraction(34, 149, 5, 0x4d2c6dfc, 0x54d2c6dfc);
    CubeFraction(35, 151, 5, 0x53380d13, 0x553380d13);
    CubeFraction(36, 157, 5, 0x650a7354, 0x5650a7354);
    CubeFraction(37, 163, 5, 0x766a0abb, 0x5766a0abb);
    CubeFraction(38, 167, 5, 0x81c2c92e, 0x581c2c92e);
    CubeFraction(39, 173, 5, 0x92722c85, 0x592722c85);
  }

  lemma CubeRow5()
    ensures forall i :: 40 <= i < 48 ==> IsCubeFraction(i)
  {
    hide IsCubeFraction;
    CubeFraction(40, 179, 5, 0xa2bfe8a1, 0x5a2bfe8a1);
    CubeFraction(41, 181, 5, 0xa81a664b, 0x5a81a664b);
    CubeFraction(42, 191, 5, 0xc24b8b70, 0x5c24b8b70);
    CubeFraction(43, 193, 5, 0xc76c51a3, 0x5c76c51a3);
    CubeFraction(44, 197, 5, 0xd192e819, 0x5d192e819);
    CubeFraction(45, 199, 5, 0xd6990624, 0x5d6990624);
    CubeFraction(46, 211, 5, 0xf40e3585, 0x5f40e3585);
    CubeFraction(47, 223, 6, 0x106aa070, 0x6106aa070);
  }

  lemma CubeRow6()
    ensures forall i :: 48 <= i < 56 ==> IsCubeFraction(i)
  {
    hide IsCubeFraction;
    CubeFraction(48, 227, 6, 0x19a4c116, 0x619a4c116);
    CubeFraction(49, 229, 6, 0x1e376c08, 0x61e376c08);
    CubeFraction(50, 233, 6, 0x2748774c, 0x62748774c);
    CubeFraction(51, 239, 6, 0x34b0bcb5, 0x634b0bcb5);
    CubeFraction(52, 241, 6, 0x391c0cb3, 0x6391c0cb3);
    CubeFraction(53, 251, 6, 0x4ed8aa4a, 0x64ed8aa4a);
    CubeFraction(54, 257, 6, 0x5b9cca4f, 0x65b9cca4f);
    CubeFraction(55, 263, 6, 0x682e6ff3, 0x6682e6ff3);
  }

  lemma CubeRow7()
    ensures forall i :: 56 <= i < 64 ==> IsCubeFraction(i)
  {
    hide IsCubeFraction;
    CubeFraction(56, 269, 6, 0x748f82ee, 0x6748f82ee);
    CubeFraction(57, 271, 6, 0x78a5636f, 0x678a5636f);
    CubeFraction(58, 277, 6, 0x84c87814, 0x684c87814);
    CubeFraction(59, 281, 6, 0x8cc70208, 0x68cc70208);
    CubeFraction(60, 283, 6, 0x90befffa, 0x690befffa);
    CubeFraction(61, 293, 6, 0xa4506ceb, 0x6a4506ceb);
    CubeFraction(62, 307, 6, 0xbef9a3f7, 0x6bef9a3f7);
    CubeFraction(63, 311, 6, 0xc67178f2, 0x6c67178f2);
  }

  /** The eight words of the initial state. */
  lemma InitialState(i: nat)
    requires i < 8
    ensures IsSquareFraction(i)
  {
    hide IsSquareFraction;
    SquareFraction(0, 2, 1, 0x6a09e667, 0x16a09e667);
    SquareFraction(1, 3, 1, 0xbb67ae85, 0x1bb67ae85);
    SquareFraction(2, 5, 2, 0x3c6ef372, 0x23c6ef372);
    SquareFraction(3, 7, 2, 0xa54ff53a, 0x2a54ff53a);
    SquareFraction(4, 11, 3, 0x510e527f, 0x3510e527f);
    SquareFraction(5, 13, 3, 0x9b05688c, 0x39b05688c);
    SquareFraction(6, 17, 4, 0x1f83d9ab, 0x41f83d9ab);
    SquareFraction(7, 19, 4, 0x5be0cd19, 0x45be0cd19);
    assert i == 0 || i == 1 || i == 2 || i == 3 || i == 4 || i == 5 || i == 6 || i == 7;
  }

  /** The sixty-four round constants. */
  lemma RoundConstant(i: nat)
    requires i < 64
    ensures IsCubeFraction(i)
  {
    hide IsCubeFraction;
    CubeRow0();
    CubeRow1();
    CubeRow2();
    CubeRow3();
    CubeRow4();
    CubeRow5();
    CubeRow6();
    CubeRow7();
  }
}
