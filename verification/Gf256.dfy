/** Numbers below 256 as bit vectors. */
module ByteNumbers {
  lemma NumberByte(n: nat)
    requires n < 256
    ensures (n as bv8) as int == n
  {
  }
}

/** GF(256) modulo x^8+x^4+x^3+x^2+1, and the log and exp tables of qrencode. */
module Gf256 {

  // ---- multiplication by x ----

  function Shl(a: bv8): bv8 { a << 1 }

  function Reduce(a: bv8): bv8 { if a & 0x80 == 0 then 0 else 0x1d }

  /** Multiplication by x: shift, and take off the modulus if a bit fell out. */
  function Xtime(a: bv8): bv8 { Shl(a) ^ Reduce(a) }

  /** Addition is exclusive or. */
  function Add(a: bv8, b: bv8): bv8 { a ^ b }

  lemma AddLaws(a: bv8, b: bv8)
    ensures Add(a, b) == Add(b, a) && Add(a, 0) == a && Add(0, a) == a && Add(a, a) == 0
    ensures Add(a, b) == 0 ==> a == b
  {
  }

  lemma AddAssoc(p: bv8, q: bv8, s: bv8)
    ensures Add(Add(p, q), s) == Add(p, Add(q, s))
  {
  }

  /** A sum of two sums may be taken crosswise. */
  lemma AddSwap(p: bv8, q: bv8, s: bv8, t: bv8)
    ensures Add(Add(p, q), Add(s, t)) == Add(Add(p, s), Add(q, t))
  {
    hide Add;
    AddAssoc(p, q, Add(s, t));
    AddAssoc(q, s, t);
    AddLaws(q, s);
    AddAssoc(s, q, t);
    AddAssoc(p, s, Add(q, t));
  }

  lemma ShlAdd(a: bv8, b: bv8)
    ensures Shl(a ^ b) == Shl(a) ^ Shl(b)
  {
  }

  lemma ReduceAdd(a: bv8, b: bv8)
    ensures Reduce(a ^ b) == Reduce(a) ^ Reduce(b)
  {
  }

  lemma XtimeAdd(a: bv8, b: bv8)
    ensures Xtime(Add(a, b)) == Add(Xtime(a), Xtime(b))
  {
    hide Shl, Reduce;
    ShlAdd(a, b);
    ReduceAdd(a, b);
  }

  /** Multiplication by x^n. */
  function Times(a: bv8, n: nat): bv8 {
    if n == 0 then a else Xtime(Times(a, n - 1))
  }

  /** Powers of the generator alpha = x. */
  function Alpha(n: nat): bv8 { Times(1, n) }

  lemma {:induction false} TimesAdd(a: bv8, b: bv8, n: nat)
    ensures Times(Add(a, b), n) == Add(Times(a, n), Times(b, n))
  {
    hide Xtime, Add;
    if n > 0 {
      TimesAdd(a, b, n - 1);
      XtimeAdd(Times(a, n - 1), Times(b, n - 1));
    }
  }

  lemma {:induction false} TimesZero(n: nat)
    ensures Times(0, n) == 0
  {
    if n > 0 { TimesZero(n - 1); }
  }

  lemma {:induction false} TimesTimes(a: bv8, m: nat, n: nat)
    ensures Times(Times(a, m), n) == Times(a, m + n)
  {
    hide Xtime;
    if n > 0 { TimesTimes(a, m, n - 1); }
  }

  // ---- the tables ----

  /** Table `g0exp`, in rows of sixteen. */
  const G0EXP: seq<seq<bv8>> := [
    [0x01, 0x02, 0x04, 0x08, 0x10, 0x20, 0x40, 0x80, 0x1d, 0x3a, 0x74, 0xe8, 0xcd, 0x87, 0x13, 0x26],
    [0x4c, 0x98, 0x2d, 0x5a, 0xb4, 0x75, 0xea, 0xc9, 0x8f, 0x03, 0x06, 0x0c, 0x18, 0x30, 0x60, 0xc0],
    [0x9d, 0x27, 0x4e, 0x9c, 0x25, 0x4a, 0x94, 0x35, 0x6a, 0xd4, 0xb5, 0x77, 0xee, 0xc1, 0x9f, 0x23],
    [0x46, 0x8c, 0x05, 0x0a, 0x14, 0x28, 0x50, 0xa0, 0x5d, 0xba, 0x69, 0xd2, 0xb9, 0x6f, 0xde, 0xa1],
    [0x5f, 0xbe, 0x61, 0xc2, 0x99, 0x2f, 0x5e, 0xbc, 0x65, 0xca, 0x89, 0x0f, 0x1e, 0x3c, 0x78, 0xf0],
    [0xfd, 0xe7, 0xd3, 0xbb, 0x6b, 0xd6, 0xb1, 0x7f, 0xfe, 0xe1, 0xdf, 0xa3, 0x5b, 0xb6, 0x71, 0xe2],
    [0xd9, 0xaf, 0x43, 0x86, 0x11, 0x22, 0x44, 0x88, 0x0d, 0x1a, 0x34, 0x68, 0xd0, 0xbd, 0x67, 0xce],
    [0x81, 0x1f, 0x3e, 0x7c, 0xf8, 0xed, 0xc7, 0x93, 0x3b, 0x76, 0xec, 0xc5, 0x97, 0x33, 0x66, 0xcc],
    [0x85, 0x17, 0x2e, 0x5c, 0xb8, 0x6d, 0xda, 0xa9, 0x4f, 0x9e, 0x21, 0x42, 0x84, 0x15, 0x2a, 0x54],
    [0xa8, 0x4d, 0x9a, 0x29, 0x52, 0xa4, 0x55, 0xaa, 0x49, 0x92, 0x39, 0x72, 0xe4, 0xd5, 0xb7, 0x73],
    [0xe6, 0xd1, 0xbf, 0x63, 0xc6, 0x91, 0x3f, 0x7e, 0xfc, 0xe5, 0xd7, 0xb3, 0x7b, 0xf6, 0xf1, 0xff],
    [0xe3, 0xdb, 0xab, 0x4b, 0x96, 0x31, 0x62, 0xc4, 0x95, 0x37, 0x6e, 0xdc, 0xa5, 0x57, 0xae, 0x41],
    [0x82, 0x19, 0x32, 0x64, 0xc8, 0x8d, 0x07, 0x0e, 0x1c, 0x38, 0x70, 0xe0, 0xdd, 0xa7, 0x53, 0xa6],
    [0x51, 0xa2, 0x59, 0xb2, 0x79, 0xf2, 0xf9, 0xef, 0xc3, 0x9b, 0x2b, 0x56, 0xac, 0x45, 0x8a, 0x09],
    [0x12, 0x24, 0x48, 0x90, 0x3d, 0x7a, 0xf4, 0xf5, 0xf7, 0xf3, 0xfb, 0xeb, 0xcb, 0x8b, 0x0b, 0x16],
    [0x2c, 0x58, 0xb0, 0x7d, 0xfa, 0xe9, 0xcf, 0x83, 0x1b, 0x36, 0x6c, 0xd8, 0xad, 0x47, 0x8e, 0x00]
  ]

  /** Table `g0log`, in rows of sixteen; 0xff marks the missing logarithm of zero. */
  const G0LOG: seq<seq<nat>> := [
    [0xff, 0x00, 0x01, 0x19, 0x02, 0x32, 0x1a, 0xc6, 0x03, 0xdf, 0x33, 0xee, 0x1b, 0x68, 0xc7, 0x4b],
    [0x04, 0x64, 0xe0, 0x0e, 0x34, 0x8d, 0xef, 0x81, 0x1c, 0xc1, 0x69, 0xf8, 0xc8, 0x08, 0x4c, 0x71],
    [0x05, 0x8a, 0x65, 0x2f, 0xe1, 0x24, 0x0f, 0x21, 0x35, 0x93, 0x8e, 0xda, 0xf0, 0x12, 0x82, 0x45],
    [0x1d, 0xb5, 0xc2, 0x7d, 0x6a, 0x27, 0xf9, 0xb9, 0xc9, 0x9a, 0x09, 0x78, 0x4d, 0xe4, 0x72, 0xa6],
    [0x06, 0xbf, 0x8b, 0x62, 0x66, 0xdd, 0x30, 0xfd, 0xe2, 0x98, 0x25, 0xb3, 0x10, 0x91, 0x22, 0x88],
    [0x36, 0xd0, 0x94, 0xce, 0x8f, 0x96, 0xdb, 0xbd, 0xf1, 0xd2, 0x13, 0x5c, 0x83, 0x38, 0x46, 0x40],
    [0x1e, 0x42, 0xb6, 0xa3, 0xc3, 0x48, 0x7e, 0x6e, 0x6b, 0x3a, 0x28, 0x54, 0xfa, 0x85, 0xba, 0x3d],
    [0xca, 0x5e, 0x9b, 0x9f, 0x0a, 0x15, 0x79, 0x2b, 0x4e, 0xd4, 0xe5, 0xac, 0x73, 0xf3, 0xa7, 0x57],
    [0x07, 0x70, 0xc0, 0xf7, 0x8c, 0x80, 0x63, 0x0d, 0x67, 0x4a, 0xde, 0xed, 0x31, 0xc5, 0xfe, 0x18],
    [0xe3, 0xa5, 0x99, 0x77, 0x26, 0xb8, 0xb4, 0x7c, 0x11, 0x44, 0x92, 0xd9, 0x23, 0x20, 0x89, 0x2e],
    [0x37, 0x3f, 0xd1, 0x5b, 0x95, 0xbc, 0xcf, 0xcd, 0x90, 0x87, 0x97, 0xb2, 0xdc, 0xfc, 0xbe, 0x61],
    [0xf2, 0x56, 0xd3, 0xab, 0x14, 0x2a, 0x5d, 0x9e, 0x84, 0x3c, 0x39, 0x53, 0x47, 0x6d, 0x41, 0xa2],
    [0x1f, 0x2d, 0x43, 0xd8, 0xb7, 0x7b, 0xa4, 0x76, 0xc4, 0x17, 0x49, 0xec, 0x7f, 0x0c, 0x6f, 0xf6],
    [0x6c, 0xa1, 0x3b, 0x52, 0x29, 0x9d, 0x55, 0xaa, 0xfb, 0x60, 0x86, 0xb1, 0xbb, 0xcc, 0x3e, 0x5a],
    [0xcb, 0x59, 0x5f, 0xb0, 0x9c, 0xa9, 0xa0, 0x51, 0x0b, 0xf5, 0x16, 0xeb, 0x7a, 0x75, 0x2c, 0xd7],
    [0x4f, 0xae, 0xd5, 0xe9, 0xe6, 0xe7, 0xad, 0xe8, 0x74, 0xd6, 0xf4, 0xea, 0xa8, 0x50, 0x58, 0xaf]
  ]

  predicate Square<T>(t: seq<seq<T>>) { |t| == 16 && forall r :: 0 <= r < 16 ==> |t[r]| == 16 }

  lemma TableSizes()
    ensures Square(G0EXP) && Square(G0LOG)
  {
  }

  /** `gexp(i)` */
  function ExpAt(i: nat): bv8
    requires i < 256
  {
    TableSizes();
    G0EXP[i / 16][i % 16]
  }

  /** `glog(a)` */
  function LogAt(a: bv8): nat {
    TableSizes();
    G0LOG[a as int / 16][a as int % 16]
  }

  /** Each entry is x times the one before, and only entry 0 of the table is 1. */
  predicate Doubling(r: seq<bv8>, n: nat, before: bv8) {
    && |r| == 16 && r[0] == Xtime(before) && (n == 0 || r[0] != 1)
    && (n == 15 || (r[15] == Xtime(r[14]) && r[15] != 1))
    && r[1] == Xtime(r[0]) && r[2] == Xtime(r[1]) && r[3] == Xtime(r[2]) && r[4] == Xtime(r[3])
    && r[5] == Xtime(r[4]) && r[6] == Xtime(r[5]) && r[7] == Xtime(r[6]) && r[8] == Xtime(r[7])
    && r[9] == Xtime(r[8]) && r[10] == Xtime(r[9]) && r[11] == Xtime(r[10]) && r[12] == Xtime(r[11])
    && r[13] == Xtime(r[12]) && r[14] == Xtime(r[13])
    && r[1] != 1 && r[2] != 1 && r[3] != 1 && r[4] != 1 && r[5] != 1 && r[6] != 1 && r[7] != 1
    && r[8] != 1 && r[9] != 1 && r[10] != 1 && r[11] != 1 && r[12] != 1 && r[13] != 1 && r[14] != 1
  }

  lemma ExpRows0()
    ensures Square(G0EXP)
    ensures Doubling(G0EXP[0], 0, 0x8e)
    ensures Doubling(G0EXP[1], 1, G0EXP[0][15])
    ensures Doubling(G0EXP[2], 2, G0EXP[1][15])
    ensures Doubling(G0EXP[3], 3, G0EXP[2][15])
  {
    hide Square;
    TableSizes();
  }

  lemma ExpRows1()
    ensures Square(G0EXP)
    ensures Doubling(G0EXP[4], 4, G0EXP[3][15])
    ensures Doubling(G0EXP[5], 5, G0EXP[4][15])
    ensures Doubling(G0EXP[6], 6, G0EXP[5][15])
    ensures Doubling(G0EXP[7], 7, G0EXP[6][15])
  {
    hide Square;
    TableSizes();
  }

  lemma ExpRows2()
    ensures Square(G0EXP)
    ensures Doubling(G0EXP[8], 8, G0EXP[7][15])
    ensures Doubling(G0EXP[9], 9, G0EXP[8][15])
    ensures Doubling(G0EXP[10], 10, G0EXP[9][15])
    ensures Doubling(G0EXP[11], 11, G0EXP[10][15])
  {
    hide Square;
    TableSizes();
  }

  lemma ExpRows3()
    ensures Square(G0EXP)
    ensures Doubling(G0EXP[12], 12, G0EXP[11][15])
    ensures Doubling(G0EXP[13], 13, G0EXP[12][15])
    ensures Doubling(G0EXP[14], 14, G0EXP[13][15])
    ensures Doubling(G0EXP[15], 15, G0EXP[14][15])
  {
    hide Square;
    TableSizes();
  }

  /** `i` is the table's logarithm of the byte with number `n`. */
  predicate IsLog(n: nat, i: nat)
    requires Square(G0EXP)
  {
    if n == 0 then i == 0xff else i < 255 && G0EXP[i / 16][i % 16] as int == n
  }

  /** Row `l` holds the logarithms of sixteen bytes from number `n` on. */
  predicate LogsOf(l: seq<nat>, n: nat) {
    TableSizes();
    && |l| == 16
    && IsLog(n + 0, l[0]) && IsLog(n + 1, l[1]) && IsLog(n + 2, l[2]) && IsLog(n + 3, l[3])
    && IsLog(n + 4, l[4]) && IsLog(n + 5, l[5]) && IsLog(n + 6, l[6]) && IsLog(n + 7, l[7])
    && IsLog(n + 8, l[8]) && IsLog(n + 9, l[9]) && IsLog(n + 10, l[10]) && IsLog(n + 11, l[11])
    && IsLog(n + 12, l[12]) && IsLog(n + 13, l[13]) && IsLog(n + 14, l[14]) && IsLog(n + 15, l[15])
  }

  lemma LogRows0()
    ensures |G0LOG| == 16 && LogsOf(G0LOG[0], 0x00) && LogsOf(G0LOG[1], 0x10)
  {
    hide Square;
    TableSizes();
  }

  lemma LogRows1()
    ensures |G0LOG| == 16 && LogsOf(G0LOG[2], 0x20) && LogsOf(G0LOG[3], 0x30)
  {
    hide Square;
    TableSizes();
  }

  lemma LogRows2()
    ensures |G0LOG| == 16 && LogsOf(G0LOG[4], 0x40) && LogsOf(G0LOG[5], 0x50)
  {
    hide Square;
    TableSizes();
  }

  lemma LogRows3()
    ensures |G0LOG| == 16 && LogsOf(G0LOG[6], 0x60) && LogsOf(G0LOG[7], 0x70)
  {
    hide Square;
    TableSizes();
  }

  lemma LogRows4()
    ensures |G0LOG| == 16 && LogsOf(G0LOG[8], 0x80) && LogsOf(G0LOG[9], 0x90)
  {
    hide Square;
    TableSizes();
  }

  lemma LogRows5()
    ensures |G0LOG| == 16 && LogsOf(G0LOG[10], 0xa0) && LogsOf(G0LOG[11], 0xb0)
  {
    hide Square;
    TableSizes();
  }

  lemma LogRows6()
    ensures |G0LOG| == 16 && LogsOf(G0LOG[12], 0xc0) && LogsOf(G0LOG[13], 0xd0)
  {
    hide Square;
    TableSizes();
  }

  lemma LogRows7()
    ensures |G0LOG| == 16 && LogsOf(G0LOG[14], 0xe0) && LogsOf(G0LOG[15], 0xf0)
  {
    hide Square;
    TableSizes();
  }

  lemma ExpRowAt(r: nat)
    requires r < 16
    ensures Square(G0EXP) && Doubling(G0EXP[r], r, if r == 0 then 0x8e else G0EXP[r - 1][15])
  {
    hide Doubling, G0EXP, Square;
    ExpRows0();
    ExpRows1();
    ExpRows2();
    ExpRows3();
  }

  lemma LogRowAt(r: nat)
    requires r < 16
    ensures Square(G0LOG) && LogsOf(G0LOG[r], 16 * r)
  {
    hide LogsOf, G0LOG;
    TableSizes();
    LogRows0();
    LogRows1();
    LogRows2();
    LogRows3();
    LogRows4();
    LogRows5();
    LogRows6();
    LogRows7();
  }

  lemma RowStep(r: seq<bv8>, n: nat, before: bv8, c: nat)
    requires Doubling(r, n, before) && c < 15 && (n == 15 ==> c < 14)
    ensures r[c + 1] == Xtime(r[c]) && r[c + 1] != 1
  {
    hide Xtime;
    assert c == 0 || c == 1 || c == 2 || c == 3 || c == 4 || c == 5 || c == 6 || c == 7
        || c == 8 || c == 9 || c == 10 || c == 11 || c == 12 || c == 13 || c == 14;
  }

  lemma RowStart(r: seq<bv8>, n: nat, before: bv8)
    requires Doubling(r, n, before)
    ensures r[0] == Xtime(before) && (n == 0 || r[0] != 1)
  {
  }

  lemma RowLog(l: seq<nat>, n: nat, c: nat)
    requires LogsOf(l, n) && c < 16
    ensures Square(G0EXP) && IsLog(n + c, l[c])
  {
    hide IsLog, G0EXP;
    TableSizes();
    assert c == 0 || c == 1 || c == 2 || c == 3 || c == 4 || c == 5 || c == 6 || c == 7
        || c == 8 || c == 9 || c == 10 || c == 11 || c == 12 || c == 13 || c == 14 || c == 15;
  }

  /** The exp table doubles from entry to entry. */
  lemma ExpStep(i: nat)
    requires i < 254
    ensures ExpAt(i + 1) == Xtime(ExpAt(i)) && ExpAt(i + 1) != 1
  {
    hide G0EXP, Xtime, Doubling;
    TableSizes();
    ExpRowAt(i / 16);
    ExpRowAt((i + 1) / 16);
    if i % 16 == 15 {
      assert (i + 1) / 16 == i / 16 + 1 && (i + 1) % 16 == 0;
      RowStart(G0EXP[(i + 1) / 16], (i + 1) / 16, G0EXP[i / 16][15]);
    } else {
      assert (i + 1) / 16 == i / 16 && (i + 1) % 16 == i % 16 + 1;
      RowStep(G0EXP[i / 16], i / 16, if i < 16 then 0x8e else G0EXP[i / 16 - 1][15], i % 16);
    }
  }

  lemma ExpEnds()
    ensures ExpAt(0) == 1 && ExpAt(254) == 0x8e
  {
  }

  /** Entry i of the exp table is alpha^i. */
  lemma {:induction false} ExpIsAlpha(i: nat)
    requires i < 255
    ensures ExpAt(i) == Alpha(i) && (i > 0 ==> Alpha(i) != 1)
  {
    hide G0EXP, Xtime, ExpAt;
    if i == 0 {
      ExpEnds();
    } else {
      ExpIsAlpha(i - 1);
      ExpStep(i - 1);
    }
  }

  lemma SameNumber(a: bv8, b: bv8)
    requires a as int == b as int
    ensures a == b
  {
  }

  /** The log table inverts the powers of alpha. */
  lemma LogIsLog(a: bv8)
    ensures if a == 0 then LogAt(a) == 0xff else LogAt(a) < 255 && Alpha(LogAt(a)) == a
  {
    hide G0LOG, G0EXP, Alpha, LogsOf;
    TableSizes();
    var n := a as int;
    LogRowAt(n / 16);
    RowLog(G0LOG[n / 16], 16 * (n / 16), n % 16);
    assert IsLog(n, LogAt(a));
    if a == 0 {
    } else {
      SameNumber(ExpAt(LogAt(a)), a);
      ExpIsAlpha(LogAt(a));
    }
  }
}
