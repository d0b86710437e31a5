/** The field GF(256) modulo x^8+x^4+x^3+x+1, and the S-box as inversion in it. */
module AesField {
  import opened AesTables
  import opened Gf256

  // ---- products ----

  function Pick(bit: bv8, b: bv8): bv8 { if bit == 0 then 0 else b }

  /** The sum of x^k b over the bits k < n that are set in `a`. */
  function Sum(a: bv8, b: bv8, n: nat): bv8
    decreases n
  {
    if n == 0 then 0 else Add(Pick(a & 1, b), Sum(a >> 1, Double(b), n - 1))
  }

  function Product(a: bv8, b: bv8): bv8 { Sum(a, b, 8) }

  function Xor8(p0: bv8, p1: bv8, p2: bv8, p3: bv8, p4: bv8, p5: bv8, p6: bv8, p7: bv8): bv8 {
    p0 ^ (p1 ^ (p2 ^ (p3 ^ (p4 ^ (p5 ^ (p6 ^ p7))))))
  }

  /** The product with its eight summands written out. */
  function Sum8(a: bv8, b: bv8): bv8 {
    var b1 := (b << 1) ^ (if b & 0x80 == 0 then 0 else 0x1b);
    var b2 := (b1 << 1) ^ (if b1 & 0x80 == 0 then 0 else 0x1b);
    var b3 := (b2 << 1) ^ (if b2 & 0x80 == 0 then 0 else 0x1b);
    var b4 := (b3 << 1) ^ (if b3 & 0x80 == 0 then 0 else 0x1b);
    var b5 := (b4 << 1) ^ (if b4 & 0x80 == 0 then 0 else 0x1b);
    var b6 := (b5 << 1) ^ (if b5 & 0x80 == 0 then 0 else 0x1b);
    var b7 := (b6 << 1) ^ (if b6 & 0x80 == 0 then 0 else 0x1b);
    Xor8(
      if a & 1 == 0 then 0 else b, if a & 2 == 0 then 0 else b1,
      if a & 4 == 0 then 0 else b2, if a & 8 == 0 then 0 else b3,
      if a & 0x10 == 0 then 0 else b4, if a & 0x20 == 0 then 0 else b5,
      if a & 0x40 == 0 then 0 else b6, if a & 0x80 == 0 then 0 else b7)
  }

  lemma PickBit(a: bv8, b: bv8)
    ensures Pick((a >> 1) & 1, b) == Pick(a & 2, b) && Pick((a >> 2) & 1, b) == Pick(a & 4, b)
    ensures Pick((a >> 3) & 1, b) == Pick(a & 8, b) && Pick((a >> 4) & 1, b) == Pick(a & 0x10, b)
    ensures Pick((a >> 5) & 1, b) == Pick(a & 0x20, b) && Pick((a >> 6) & 1, b) == Pick(a & 0x40, b)
    ensures Pick((a >> 7) & 1, b) == Pick(a & 0x80, b)
  {
  }

  lemma ShiftTwice(a: bv8)
    ensures a >> 1 >> 1 == a >> 2 && a >> 2 >> 1 == a >> 3 && a >> 3 >> 1 == a >> 4
    ensures a >> 4 >> 1 == a >> 5 && a >> 5 >> 1 == a >> 6 && a >> 6 >> 1 == a >> 7
  {
  }

  lemma SumStep(a: bv8, b: bv8, k: nat)
    requires k < 8
    ensures Sum(a, b, 0) == 0
    ensures Sum(a, b, k + 1) == Add(Pick(a & 1, b), Sum(a >> 1, Double(b), k))
  {
  }

  lemma SumUnrolled(a: bv8, b: bv8)
    ensures
      var b1 := Double(b);
      var b2 := Double(b1);
      var b3 := Double(b2);
      var b4 := Double(b3);
      var b5 := Double(b4);
      var b6 := Double(b5);
      var b7 := Double(b6);
      var s4 := Add(Pick(a & 0x10, b4), Add(Pick(a & 0x20, b5), Add(Pick(a & 0x40, b6), Pick(a & 0x80, b7))));
      Product(a, b) == Add(Pick(a & 1, b), Add(Pick(a & 2, b1), Add(Pick(a & 4, b2), Add(Pick(a & 8, b3), s4))))
  {
    hide Add, Double, Pick, Sum;
    AddLaws(Pick((a >> 7) & 1, Double(Double(Double(Double(Double(Double(Double(b)))))))), 0);
    var b1 := Double(b);
    var b2 := Double(b1);
    var b3 := Double(b2);
    var b4 := Double(b3);
    var b5 := Double(b4);
    var b6 := Double(b5);
    var b7 := Double(b6);
    SumStep(a, b, 7);
    SumStep(a >> 1, b1, 6);
    SumStep(a >> 2, b2, 5);
    SumStep(a >> 3, b3, 4);
    SumStep(a >> 4, b4, 3);
    SumStep(a >> 5, b5, 2);
    SumStep(a >> 6, b6, 1);
    SumStep(a >> 7, b7, 0);
    SumStep(a >> 7 >> 1, Double(b7), 0);
    ShiftTwice(a);
    PickBit(a, b1);
    PickBit(a, b2);
    PickBit(a, b3);
    PickBit(a, b4);
    PickBit(a, b5);
    PickBit(a, b6);
    PickBit(a, b7);
  }

  lemma DoubleIs(b: bv8)
    ensures Double(b) == (b << 1) ^ (if b & 0x80 == 0 then 0 else 0x1b)
  {
  }

  lemma PickIs(bit: bv8, b: bv8)
    ensures Pick(bit, b) == if bit == 0 then 0 else b
  {
  }

  lemma Xor8Is(p0: bv8, p1: bv8, p2: bv8, p3: bv8, p4: bv8, p5: bv8, p6: bv8, p7: bv8)
    ensures Xor8(p0, p1, p2, p3, p4, p5, p6, p7)
      == Add(p0, Add(p1, Add(p2, Add(p3, Add(p4, Add(p5, Add(p6, p7)))))))
  {
  }

  lemma ProductIsSum8(a: bv8, b: bv8)
    ensures Product(a, b) == Sum8(a, b)
  {
    hide Add, Double, Pick, Sum, Xor8;
    SumUnrolled(a, b);
    var b1 := Double(b);
    DoubleIs(b);
    var b2 := Double(b1);
    DoubleIs(b1);
    var b3 := Double(b2);
    DoubleIs(b2);
    var b4 := Double(b3);
    DoubleIs(b3);
    var b5 := Double(b4);
    DoubleIs(b4);
    var b6 := Double(b5);
    DoubleIs(b5);
    var b7 := Double(b6);
    DoubleIs(b6);
    PickIs(a & 1, b);
    PickIs(a & 2, b1);
    PickIs(a & 4, b2);
    PickIs(a & 8, b3);
    PickIs(a & 0x10, b4);
    PickIs(a & 0x20, b5);
    PickIs(a & 0x40, b6);
    PickIs(a & 0x80, b7);
    Xor8Is(
      Pick(a & 1, b), Pick(a & 2, b1), Pick(a & 4, b2), Pick(a & 8, b3),
      Pick(a & 0x10, b4), Pick(a & 0x20, b5), Pick(a & 0x40, b6), Pick(a & 0x80, b7));
  }

  // ---- the laws of the field ----

  lemma PickLaws(bit: bv8, b: bv8, c: bv8)
    ensures Pick(bit, Add(b, c)) == Add(Pick(bit, b), Pick(bit, c))
    ensures Pick(bit, Double(b)) == Double(Pick(bit, b))
  {
  }

  lemma {:induction false} SumAdd(a: bv8, b: bv8, c: bv8, n: nat)
    ensures Sum(a, Add(b, c), n) == Add(Sum(a, b, n), Sum(a, c, n))
    decreases n
  {
    hide Add, Double, Pick;
    if n == 0 {
      AddLaws(0, 0);
    } else {
      DoubleAdd(b, c);
      SumAdd(a >> 1, Double(b), Double(c), n - 1);
      PickLaws(a & 1, b, c);
      AddSwap(Pick(a & 1, b), Pick(a & 1, c), Sum(a >> 1, Double(b), n - 1), Sum(a >> 1, Double(c), n - 1));
    }
  }

  lemma {:induction false} SumDouble(a: bv8, b: bv8, n: nat)
    ensures Sum(a, Double(b), n) == Double(Sum(a, b, n))
    decreases n
  {
    if n > 0 {
      hide Add, Pick, Double;
      SumDouble(a >> 1, Double(b), n - 1);
      PickLaws(a & 1, b, b);
      DoubleAdd(Pick(a & 1, b), Sum(a >> 1, Double(b), n - 1));
    }
  }

  lemma {:induction false} SumPick(a: bv8, bit: bv8, b: bv8, n: nat)
    ensures Sum(a, Pick(bit, b), n) == Pick(bit, Sum(a, b, n))
    decreases n
  {
    if n > 0 {
      PickLaws(bit, b, b);
      SumPick(a >> 1, bit, Double(b), n - 1);
    }
  }

  /** Factors may be exchanged. */
  lemma {:induction false} SumSwap(a: bv8, c: bv8, b: bv8, n: nat)
    ensures Product(a, Sum(c, b, n)) == Sum(c, Product(a, b), n)
    decreases n
  {
    if n == 0 {
      SumPick(a, 0, 0, 8);
    } else {
      hide Add, Double, Pick;
      SumSwap(a, c >> 1, Double(b), n - 1);
      SumDouble(a, b, 8);
      SumAdd(a, Pick(c & 1, b), Sum(c >> 1, Double(b), n - 1), 8);
      SumPick(a, c & 1, b, 8);
    }
  }

  lemma ProductOne(a: bv8)
    ensures Product(a, 1) == a
  {
    ProductIsSum8(a, 1);
  }

  /** Multiplication is commutative and associative, and distributes over addition. */
  lemma ProductLaws(a: bv8, b: bv8, c: bv8)
    ensures Product(a, b) == Product(b, a)
    ensures Product(a, Product(b, c)) == Product(Product(a, b), c)
    ensures Product(a, Add(b, c)) == Add(Product(a, b), Product(a, c))
  {
    hide Sum;
    SumSwap(a, b, 1, 8);
    ProductOne(a);
    ProductOne(b);
    SumSwap(c, Product(a, b), 1, 8);
    ProductOne(c);
    ProductOne(Product(a, b));
    SumSwap(c, a, b, 8);
    SumSwap(c, b, 1, 8);
    SumAdd(a, b, c, 8);
  }

  /** Inverse bytes; zero counts as its own inverse. */
  predicate Inverses(a: bv8, b: bv8) { if a == 0 then b == 0 else Product(a, b) == 1 }

  lemma InverseUnique(a: bv8, b: bv8, c: bv8)
    requires Inverses(a, b) && Inverses(a, c)
    ensures b == c
  {
    hide Product;
    if a != 0 {
      ProductLaws(b, a, c);
      ProductLaws(c, 1, 1);
      ProductOne(b);
      ProductOne(c);
    }
  }

  /** The columns of MixColumns are products with 2, 1, 1 and 3, those of InvMixColumns with 14, 9, 13 and 11. */
  lemma MixByProducts(a: bv8)
    ensures MixByte(a) == Word(Product(a, 2), Product(a, 1), Product(a, 1), Product(a, 3))
    ensures InvMixByte(a) == Word(Product(a, 14), Product(a, 9), Product(a, 13), Product(a, 11))
  {
    hide Double, Sum;
    ProductOne(a);
    SumDouble(a, 1, 8);
    SumDouble(a, 2, 8);
    SumDouble(a, 4, 8);
    PowersOfX();
    SumAdd(a, 2, 1, 8);
    SumAdd(a, 8, 4, 8);
    SumAdd(a, 12, 2, 8);
    SumAdd(a, 8, 1, 8);
    SumAdd(a, 12, 1, 8);
    SumAdd(a, 8, 2, 8);
    SumAdd(a, 10, 1, 8);
  }

  lemma PowersOfX()
    ensures Double(1) == 2 && Double(2) == 4 && Double(4) == 8
  {
  }

  // ---- the affine map ----

  /** The affine map of SubBytes: the byte and four of its rotations added up, and 0x63. */
  function Affine(b: bv8): bv8 {
    b ^ ((b << 1) | (b >> 7)) ^ ((b << 2) | (b >> 6)) ^ ((b << 3) | (b >> 5)) ^ ((b << 4) | (b >> 4)) ^ 0x63
  }

  function UnAffine(s: bv8): bv8 { ((s << 1) | (s >> 7)) ^ ((s << 3) | (s >> 5)) ^ ((s << 6) | (s >> 2)) ^ 0x05 }

  lemma AffineUnAffine(s: bv8)
    ensures Affine(UnAffine(s)) == s && UnAffine(Affine(s)) == s
  {
  }

  // ---- the S-box, row by row ----

  /** Byte number n and the box's value lead to inverse bytes. */
  predicate InverseAt(n: nat, v: bv8)
    requires n < 256
  {
    var a, b := n as bv8, UnAffine(v);
    if a == 0 then b == 0 else Sum8(a, b) == 1
  }

  predicate InverseRow(s: seq<bv8>, n: nat)
    requires n <= 240
  {
    && |s| == 16
    && InverseAt(n + 0, s[0]) && InverseAt(n + 1, s[1])
    && InverseAt(n + 2, s[2]) && InverseAt(n + 3, s[3])
    && InverseAt(n + 4, s[4]) && InverseAt(n + 5, s[5])
    && InverseAt(n + 6, s[6]) && InverseAt(n + 7, s[7])
    && InverseAt(n + 8, s[8]) && InverseAt(n + 9, s[9])
    && InverseAt(n + 10, s[10]) && InverseAt(n + 11, s[11])
    && InverseAt(n + 12, s[12]) && InverseAt(n + 13, s[13])
    && InverseAt(n + 14, s[14]) && InverseAt(n + 15, s[15])
  }

  lemma InverseRow0()
    ensures |SBOX| == 16 && InverseRow(SBOX[0], 0)
  {
    hide Square;
    ByteTables();
  }

  lemma InverseRow1()
    ensures |SBOX| == 16 && InverseRow(SBOX[1], 16)
  {
    hide Square;
    ByteTables();
  }

  lemma InverseRow2()
    ensures |SBOX| == 16 && InverseRow(SBOX[2], 32)
  {
    hide Square;
    ByteTables();
  }

  lemma InverseRow3()
    ensures |SBOX| == 16 && InverseRow(SBOX[3], 48)
  {
    hide Square;
    ByteTables();
  }

  lemma InverseRow4()
    ensures |SBOX| == 16 && InverseRow(SBOX[4], 64)
  {
    hide Square;
    ByteTables();
  }

  lemma InverseRow5()
    ensures |SBOX| == 16 && InverseRow(SBOX[5], 80)
  {
    hide Square;
    ByteTables();
  }

  lemma InverseRow6()
    ensures |SBOX| == 16 && InverseRow(SBOX[6], 96)
  {
    hide Square;
    ByteTables();
  }

  lemma InverseRow7()
    ensures |SBOX| == 16 && InverseRow(SBOX[7], 112)
  {
    hide Square;
    ByteTables();
  }

  lemma InverseRow8()
    ensures |SBOX| == 16 && InverseRow(SBOX[8], 128)
  {
    hide Square;
    ByteTables();
  }

  lemma InverseRow9()
    ensures |SBOX| == 16 && InverseRow(SBOX[9], 144)
  {
    hide Square;
    ByteTables();
  }

  lemma InverseRow10()
    ensures |SBOX| == 16 && InverseRow(SBOX[10], 160)
  {
    hide Square;
    ByteTables();
  }

  lemma InverseRow11()
    ensures |SBOX| == 16 && InverseRow(SBOX[11], 176)
  {
    hide Square;
    ByteTables();
  }

  lemma InverseRow12()
    ensures |SBOX| == 16 && InverseRow(SBOX[12], 192)
  {
    hide Square;
    ByteTables();
  }

  lemma InverseRow13()
    ensures |SBOX| == 16 && InverseRow(SBOX[13], 208)
  {
    hide Square;
    ByteTables();
  }

  lemma InverseRow14()
    ensures |SBOX| == 16 && InverseRow(SBOX[14], 224)
  {
    hide Square;
    ByteTables();
  }

  lemma InverseRow15()
    ensures |SBOX| == 16 && InverseRow(SBOX[15], 240)
  {
    hide Square;
    ByteTables();
  }

  lemma InverseRowAt(r: nat)
    requires r < 16
    ensures Square(SBOX) && InverseRow(SBOX[r], 16 * r)
  {
    hide InverseRow, SBOX;
    ByteTables();
    InverseRow0();
    InverseRow1();
    InverseRow2();
    InverseRow3();
    InverseRow4();
    InverseRow5();
    InverseRow6();
    InverseRow7();
    InverseRow8();
    InverseRow9();
    InverseRow10();
    InverseRow11();
    InverseRow12();
    InverseRow13();
    InverseRow14();
    InverseRow15();
    assert r == 0 || r == 1 || r == 2 || r == 3 || r == 4 || r == 5 || r == 6 || r == 7
        || r == 8 || r == 9 || r == 10 || r == 11 || r == 12 || r == 13 || r == 14 || r == 15;
  }

  lemma InverseIn(s: seq<bv8>, n: nat, c: nat)
    requires n <= 240 && InverseRow(s, n) && c < 16
    ensures InverseAt(n + c, s[c])
  {
    hide InverseAt;
    assert c == 0 || c == 1 || c == 2 || c == 3 || c == 4 || c == 5 || c == 6 || c == 7
        || c == 8 || c == 9 || c == 10 || c == 11 || c == 12 || c == 13 || c == 14 || c == 15;
  }

  lemma InverseOf(n: nat)
    requires n < 256
    ensures Square(SBOX) && InverseAt(n, SBOX[n / 16][n % 16])
  {
    hide SBOX, InverseAt, InverseRow;
    InverseRowAt(n / 16);
    InverseIn(SBOX[n / 16], 16 * (n / 16), n % 16);
  }

  lemma InverseEntry(a: bv8)
    ensures Inverses(a, UnAffine(SubByte(a)))
  {
    hide SBOX, Sum8, Product, UnAffine;
    InverseOf(a as int);
    ByteNumber(a);
    ProductIsSum8(a, UnAffine(SubByte(a)));
  }

  /** The S-box is the affine map of the inverse, and of no other byte. */
  lemma SubByteIsInversion(a: bv8, b: bv8)
    ensures SubByte(a) == Affine(b) <==> Inverses(a, b)
  {
    hide SubByte, Inverses, Affine, UnAffine;
    InverseEntry(a);
    AffineUnAffine(SubByte(a));
    AffineUnAffine(b);
    if Inverses(a, b) { InverseUnique(a, b, UnAffine(SubByte(a))); }
  }
}
