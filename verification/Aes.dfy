/** Nettle's AES on blocks: decryption with the inverted key schedule undoes encryption. */
module Aes {
  import opened Gf256
  import opened AesTables

  // ---- words ----

  function XorW(u: Word, v: Word): Word {
    Word(Add(u.b0, v.b0), Add(u.b1, v.b1), Add(u.b2, v.b2), Add(u.b3, v.b3))
  }

  /** Rotation left by 8, 16 and 24 bits. */
  function Rot8(w: Word): Word { Word(w.b3, w.b0, w.b1, w.b2) }

  function Rot16(w: Word): Word { Word(w.b2, w.b3, w.b0, w.b1) }

  function Rot24(w: Word): Word { Word(w.b1, w.b2, w.b3, w.b0) }

  lemma XorWLaws(u: Word, v: Word)
    ensures XorW(u, v) == XorW(v, u) && XorW(XorW(u, v), v) == u
  {
    hide Add;
    AddLaws(u.b0, v.b0);
    AddLaws(u.b1, v.b1);
    AddLaws(u.b2, v.b2);
    AddLaws(u.b3, v.b3);
    AddTwice(u.b0, v.b0);
    AddTwice(u.b1, v.b1);
    AddTwice(u.b2, v.b2);
    AddTwice(u.b3, v.b3);
  }

  lemma AddTwice(a: bv8, b: bv8)
    ensures Add(Add(a, b), b) == a
  {
    hide Add;
    AddAssoc(a, b, b);
    AddLaws(b, b);
    AddLaws(a, 0);
  }

  lemma XorWSwap(p: Word, q: Word, s: Word, t: Word)
    ensures XorW(XorW(p, q), XorW(s, t)) == XorW(XorW(p, s), XorW(q, t))
  {
    hide Add;
    AddSwap(p.b0, q.b0, s.b0, t.b0);
    AddSwap(p.b1, q.b1, s.b1, t.b1);
    AddSwap(p.b2, q.b2, s.b2, t.b2);
    AddSwap(p.b3, q.b3, s.b3, t.b3);
  }

  // ---- mixing columns ----

  function MixCol(w: Word): Word {
    XorW(XorW(XorW(MixByte(w.b0), Rot8(MixByte(w.b1))), Rot16(MixByte(w.b2))), Rot24(MixByte(w.b3)))
  }

  function InvMixCol(w: Word): Word {
    XorW(XorW(XorW(InvMixByte(w.b0), Rot8(InvMixByte(w.b1))), Rot16(InvMixByte(w.b2))), Rot24(InvMixByte(w.b3)))
  }

  lemma InvMixByteAdd(a: bv8, b: bv8)
    ensures InvMixByte(Add(a, b)) == XorW(InvMixByte(a), InvMixByte(b))
  {
    hide Add, Double;
    var a2, b2 := Double(a), Double(b);
    var a4, b4 := Double(a2), Double(b2);
    var a8, b8 := Double(a4), Double(b4);
    DoubleAdd(a, b);
    DoubleAdd(a2, b2);
    DoubleAdd(a4, b4);
    AddSwap(a8, b8, a4, b4);
    AddSwap(Add(a8, a4), Add(b8, b4), a2, b2);
    AddSwap(a8, b8, a, b);
    AddSwap(Add(a8, a4), Add(b8, b4), a, b);
    AddSwap(a8, b8, a2, b2);
    AddSwap(Add(a8, a2), Add(b8, b2), a, b);
  }

  lemma RotAdd(u: Word, v: Word)
    ensures Rot8(XorW(u, v)) == XorW(Rot8(u), Rot8(v)) && Rot16(XorW(u, v)) == XorW(Rot16(u), Rot16(v))
    ensures Rot24(XorW(u, v)) == XorW(Rot24(u), Rot24(v))
  {
    hide Add;
  }

  /** InvMixColumns is linear, so it may be applied to state and subkey separately. */
  lemma InvMixColAdd(u: Word, v: Word)
    ensures InvMixCol(XorW(u, v)) == XorW(InvMixCol(u), InvMixCol(v))
  {
    var w := XorW(u, v);
    InvMixByteAdd(u.b0, v.b0);
    InvMixByteAdd(u.b1, v.b1);
    InvMixByteAdd(u.b2, v.b2);
    InvMixByteAdd(u.b3, v.b3);
    SplitXor(u, v);
    hide XorW, InvMixByte, Rot8, Rot16, Rot24;
    var p0, p1, p2, p3 := InvMixByte(u.b0), InvMixByte(u.b1), InvMixByte(u.b2), InvMixByte(u.b3);
    var q0, q1, q2, q3 := InvMixByte(v.b0), InvMixByte(v.b1), InvMixByte(v.b2), InvMixByte(v.b3);
    RotAdd(p1, q1);
    RotAdd(p2, q2);
    RotAdd(p3, q3);
    XorWSwap(p0, q0, Rot8(p1), Rot8(q1));
    XorWSwap(XorW(p0, Rot8(p1)), XorW(q0, Rot8(q1)), Rot16(p2), Rot16(q2));
    XorWSwap(XorW(XorW(p0, Rot8(p1)), Rot16(p2)), XorW(XorW(q0, Rot8(q1)), Rot16(q2)), Rot24(p3), Rot24(q3));
  }

  lemma SplitXor(u: Word, v: Word)
    ensures XorW(u, v).b0 == Add(u.b0, v.b0) && XorW(u, v).b1 == Add(u.b1, v.b1)
    ensures XorW(u, v).b2 == Add(u.b2, v.b2) && XorW(u, v).b3 == Add(u.b3, v.b3)
  {
  }

  // ---- InvMixColumns after MixColumns ----

  /** One byte of a mixed column. */
  function MixSum(x: bv8, y: bv8, y': bv8, z: bv8, t: bv8): bv8 { x ^ y ^ y' ^ z ^ t }

  function MixRowByte(a: bv8, b: bv8, c: bv8, d: bv8): bv8 { MixSum(Double(a), Double(b), b, c, d) }

  /** One byte of an inversely mixed column, from the multiples 8, 4, 2 and 1 of the four bytes. */
  function InvSum(a8: bv8, a4: bv8, a2: bv8, b8: bv8, b2: bv8, b1: bv8, c8: bv8, c4: bv8, c1: bv8, d8: bv8,
                  d1: bv8): bv8 {
    a8 ^ a4 ^ a2 ^ b8 ^ b2 ^ b1 ^ c8 ^ c4 ^ c1 ^ d8 ^ d1
  }

  function InvRowByte(a: bv8, b: bv8, c: bv8, d: bv8): bv8 {
    InvSum(Double(Double(Double(a))), Double(Double(a)), Double(a),
           Double(Double(Double(b))), Double(b), b,
           Double(Double(Double(c))), Double(Double(c)), c,
           Double(Double(Double(d))), d)
  }

  lemma Flat3(a: bv8, b: bv8, c: bv8)
    ensures Add(Add(a, b), c) == a ^ b ^ c
  {
    assert Add(Add(a, b), c) == Add(a ^ b, c);
  }

  lemma Steps5(a: bv8, b: bv8, c: bv8, d: bv8, e: bv8)
    ensures Add(b, c) == b ^ c && Add(a, b ^ c) == a ^ b ^ c && Add(a ^ b ^ c, d) == a ^ b ^ c ^ d
    ensures Add(a ^ b ^ c ^ d, e) == MixSum(a, b, c, d, e)
  {
  }

  lemma Flat5(a: bv8, b: bv8, c: bv8, d: bv8, e: bv8)
    ensures Add(Add(Add(a, Add(b, c)), d), e) == MixSum(a, b, c, d, e)
  {
    hide Add, MixSum;
    Steps5(a, b, c, d, e);
  }

  lemma Join6(a: bv8, b: bv8, c: bv8, d: bv8, e: bv8, f: bv8)
    ensures Add(a ^ b ^ c, d ^ e ^ f) == a ^ b ^ c ^ d ^ e ^ f
  {
  }

  lemma Join9(a: bv8, b: bv8, c: bv8, d: bv8, e: bv8, f: bv8, g: bv8, h: bv8, i: bv8)
    ensures Add(a ^ b ^ c ^ d ^ e ^ f, g ^ h ^ i) == a ^ b ^ c ^ d ^ e ^ f ^ g ^ h ^ i
  {
  }

  lemma Join11(a: bv8, b: bv8, c: bv8, d: bv8, e: bv8, f: bv8, g: bv8, h: bv8, i: bv8, k: bv8, l: bv8)
    ensures Add(a ^ b ^ c ^ d ^ e ^ f ^ g ^ h ^ i, k ^ l) == InvSum(a, b, c, d, e, f, g, h, i, k, l)
  {
  }

  lemma Join2(k: bv8, l: bv8)
    ensures Add(k, l) == k ^ l
  {
  }

  lemma Flat11(a8: bv8, a4: bv8, a2: bv8, b8: bv8, b2: bv8, b1: bv8, c8: bv8, c4: bv8, c1: bv8, d8: bv8, d1: bv8)
    ensures Add(Add(Add(Add(Add(a8, a4), a2), Add(Add(b8, b2), b1)), Add(Add(c8, c4), c1)), Add(d8, d1))
         == InvSum(a8, a4, a2, b8, b2, b1, c8, c4, c1, d8, d1)
  {
    hide Add, InvSum;
    Flat3(a8, a4, a2);
    Flat3(b8, b2, b1);
    Flat3(c8, c4, c1);
    Join2(d8, d1);
    Join6(a8, a4, a2, b8, b2, b1);
    Join9(a8, a4, a2, b8, b2, b1, c8, c4, c1);
    Join11(a8, a4, a2, b8, b2, b1, c8, c4, c1, d8, d1);
  }

  lemma XorWAssoc(u: Word, v: Word, w: Word)
    ensures XorW(XorW(u, v), w) == XorW(u, XorW(v, w))
  {
    hide Add;
    AddAssoc(u.b0, v.b0, w.b0);
    AddAssoc(u.b1, v.b1, w.b1);
    AddAssoc(u.b2, v.b2, w.b2);
    AddAssoc(u.b3, v.b3, w.b3);
  }

  lemma XorWRotate(a: Word, b: Word, c: Word, d: Word)
    ensures XorW(XorW(XorW(a, b), c), d) == XorW(XorW(XorW(b, c), d), a)
  {
    hide XorW;
    XorWAssoc(a, b, c);
    XorWAssoc(a, XorW(b, c), d);
    XorWLaws(a, XorW(XorW(b, c), d));
  }

  lemma Rotations(w: Word)
    ensures Rot24(Rot8(w)) == w && Rot24(Rot16(w)) == Rot8(w) && Rot24(Rot24(w)) == Rot16(w)
  {
  }

  /** Mixing commutes with rotating the column. */
  lemma MixColRotates(w: Word)
    ensures MixCol(Rot24(w)) == Rot24(MixCol(w)) && InvMixCol(Rot24(w)) == Rot24(InvMixCol(w))
  {
    var v := Rot24(w);
    assert v.b0 == w.b1 && v.b1 == w.b2 && v.b2 == w.b3 && v.b3 == w.b0;
    RotateSum(MixByte(w.b0), MixByte(w.b1), MixByte(w.b2), MixByte(w.b3));
    RotateSum(InvMixByte(w.b0), InvMixByte(w.b1), InvMixByte(w.b2), InvMixByte(w.b3));
  }

  lemma RotateSum(a: Word, b: Word, c: Word, d: Word)
    ensures XorW(XorW(XorW(b, Rot8(c)), Rot16(d)), Rot24(a)) == Rot24(XorW(XorW(XorW(a, Rot8(b)), Rot16(c)), Rot24(d)))
  {
    Rotations(b);
    Rotations(c);
    Rotations(d);
    RotAdd(XorW(XorW(a, Rot8(b)), Rot16(c)), Rot24(d));
    RotAdd(XorW(a, Rot8(b)), Rot16(c));
    RotAdd(a, Rot8(b));
    XorWRotate(Rot24(a), b, Rot8(c), Rot16(d));
  }

  lemma MixColByte(w: Word)
    ensures MixCol(w).b0 == MixRowByte(w.b0, w.b1, w.b2, w.b3)
  {
    hide Add, Double, MixSum;
    Flat5(Double(w.b0), Double(w.b1), w.b1, w.b2, w.b3);
  }

  lemma InvMixColByte(w: Word)
    ensures InvMixCol(w).b0 == InvRowByte(w.b0, w.b1, w.b2, w.b3)
  {
    hide Add, Double, InvSum;
    var a2, b2, c2, d2 := Double(w.b0), Double(w.b1), Double(w.b2), Double(w.b3);
    var a4, b4, c4, d4 := Double(a2), Double(b2), Double(c2), Double(d2);
    Flat11(Double(a4), a4, a2, Double(b4), b2, w.b1, Double(c4), c4, w.b2, Double(d4), w.b3);
  }

  lemma MixColBytes(w: Word)
    ensures MixCol(w).b0 == MixRowByte(w.b0, w.b1, w.b2, w.b3) && MixCol(w).b1 == MixRowByte(w.b1, w.b2, w.b3, w.b0)
    ensures MixCol(w).b2 == MixRowByte(w.b2, w.b3, w.b0, w.b1) && MixCol(w).b3 == MixRowByte(w.b3, w.b0, w.b1, w.b2)
  {
    hide MixCol, MixRowByte;
    MixColByte(w);
    MixColRotates(w);
    MixColByte(Rot24(w));
    MixColRotates(Rot24(w));
    MixColByte(Rot24(Rot24(w)));
    MixColRotates(Rot24(Rot24(w)));
    MixColByte(Rot24(Rot24(Rot24(w))));
  }

  /** Doubling all bytes of a column doubles the mixed bytes. */
  lemma DoubleMixRow(a: bv8, b: bv8, c: bv8, d: bv8)
    ensures Double(MixRowByte(a, b, c, d)) == MixRowByte(Double(a), Double(b), Double(c), Double(d))
  {
    hide Add, Double, MixSum;
    var a2, b2 := Double(a), Double(b);
    Flat5(a2, b2, b, c, d);
    Flat5(Double(a2), Double(b2), b2, Double(c), Double(d));
    DoubleAdd(Add(Add(a2, Add(b2, b)), c), d);
    DoubleAdd(Add(a2, Add(b2, b)), c);
    DoubleAdd(a2, Add(b2, b));
    DoubleAdd(b2, b);
  }

  /** The polynomials 14, 11, 13, 9 and 2, 3, 1, 1 multiply to one: with all multiples x, 2x, 4x, 8x
      and 16x of the four bytes written out, everything but the first byte cancels. */
  lemma Cancel(a: bv8, a2: bv8, a4: bv8, a8: bv8, a16: bv8, b: bv8, b2: bv8, b4: bv8, b8: bv8, b16: bv8,
               c: bv8, c2: bv8, c4: bv8, c8: bv8, c16: bv8, d: bv8, d2: bv8, d4: bv8, d8: bv8, d16: bv8)
    ensures InvSum(a16 ^ b16 ^ b8 ^ c8 ^ d8, a8 ^ b8 ^ b4 ^ c4 ^ d4, a4 ^ b4 ^ b2 ^ c2 ^ d2,
                   b16 ^ c16 ^ c8 ^ d8 ^ a8, b4 ^ c4 ^ c2 ^ d2 ^ a2, b2 ^ c2 ^ c ^ d ^ a,
                   c16 ^ d16 ^ d8 ^ a8 ^ b8, c8 ^ d8 ^ d4 ^ a4 ^ b4, c2 ^ d2 ^ d ^ a ^ b,
                   d16 ^ a16 ^ a8 ^ b8 ^ c8, d2 ^ a2 ^ a ^ b ^ c) == a
  {
  }

  lemma MixSumIs(x: bv8, y: bv8, y': bv8, z: bv8, t: bv8)
    ensures MixSum(x, y, y', z, t) == x ^ y ^ y' ^ z ^ t
  {
  }

  lemma CancelSums(a: bv8, a2: bv8, a4: bv8, a8: bv8, a16: bv8, b: bv8, b2: bv8, b4: bv8, b8: bv8, b16: bv8,
                   c: bv8, c2: bv8, c4: bv8, c8: bv8, c16: bv8, d: bv8, d2: bv8, d4: bv8, d8: bv8, d16: bv8)
    ensures InvSum(MixSum(a16, b16, b8, c8, d8), MixSum(a8, b8, b4, c4, d4), MixSum(a4, b4, b2, c2, d2),
                   MixSum(b16, c16, c8, d8, a8), MixSum(b4, c4, c2, d2, a2), MixSum(b2, c2, c, d, a),
                   MixSum(c16, d16, d8, a8, b8), MixSum(c8, d8, d4, a4, b4), MixSum(c2, d2, d, a, b),
                   MixSum(d16, a16, a8, b8, c8), MixSum(d2, a2, a, b, c)) == a
  {
    hide InvSum, MixSum;
    Cancel(a, a2, a4, a8, a16, b, b2, b4, b8, b16, c, c2, c4, c8, c16, d, d2, d4, d8, d16);
    MixSumIs(a16, b16, b8, c8, d8);
    MixSumIs(a8, b8, b4, c4, d4);
    MixSumIs(a4, b4, b2, c2, d2);
    MixSumIs(b16, c16, c8, d8, a8);
    MixSumIs(b4, c4, c2, d2, a2);
    MixSumIs(b2, c2, c, d, a);
    MixSumIs(c16, d16, d8, a8, b8);
    MixSumIs(c8, d8, d4, a4, b4);
    MixSumIs(c2, d2, d, a, b);
    MixSumIs(d16, a16, a8, b8, c8);
    MixSumIs(d2, a2, a, b, c);
  }

  /** All doublings of a mixed byte. */
  lemma DoubledRow(a: bv8, b: bv8, c: bv8, d: bv8)
    ensures
      var m := MixRowByte(a, b, c, d);
      var a2, b2, c2, d2 := Double(a), Double(b), Double(c), Double(d);
      var a4, b4, c4, d4 := Double(a2), Double(b2), Double(c2), Double(d2);
      var a8, b8, c8, d8 := Double(a4), Double(b4), Double(c4), Double(d4);
      && m == MixSum(a2, b2, b, c, d) && Double(m) == MixSum(a4, b4, b2, c2, d2)
      && Double(Double(m)) == MixSum(a8, b8, b4, c4, d4)
      && Double(Double(Double(m))) == MixSum(Double(a8), Double(b8), b8, c8, d8)
  {
    hide Double, MixSum;
    var a2, b2, c2, d2 := Double(a), Double(b), Double(c), Double(d);
    DoubleMixRow(a, b, c, d);
    DoubleMixRow(a2, b2, c2, d2);
    DoubleMixRow(Double(a2), Double(b2), Double(c2), Double(d2));
  }

  lemma MixedBack(a: bv8, b: bv8, c: bv8, d: bv8)
    ensures InvRowByte(MixRowByte(a, b, c, d), MixRowByte(b, c, d, a), MixRowByte(c, d, a, b), MixRowByte(d, a, b, c))
      == a
  {
    hide Double, MixSum, InvSum, MixRowByte;
    DoubledRow(a, b, c, d);
    DoubledRow(b, c, d, a);
    DoubledRow(c, d, a, b);
    DoubledRow(d, a, b, c);
    var a2, b2, c2, d2 := Double(a), Double(b), Double(c), Double(d);
    var a4, b4, c4, d4 := Double(a2), Double(b2), Double(c2), Double(d2);
    var a8, b8, c8, d8 := Double(a4), Double(b4), Double(c4), Double(d4);
    CancelSums(a, a2, a4, a8, Double(a8), b, b2, b4, b8, Double(b8), c, c2, c4, c8, Double(c8), d, d2, d4, d8,
               Double(d8));
  }

  lemma InvMixFirst(w: Word)
    ensures InvMixCol(MixCol(w)).b0 == w.b0
  {
    hide MixCol, InvMixCol, MixRowByte, InvRowByte;
    MixColBytes(w);
    InvMixColByte(MixCol(w));
    MixedBack(w.b0, w.b1, w.b2, w.b3);
  }

  /** InvMixColumns undoes MixColumns. */
  lemma InvMixMix(w: Word)
    ensures InvMixCol(MixCol(w)) == w
  {
    hide MixCol, InvMixCol;
    var w1, w2, w3 := Rot24(w), Rot24(Rot24(w)), Rot24(Rot24(Rot24(w)));
    InvMixFirst(w);
    InvMixFirst(w1);
    InvMixFirst(w2);
    InvMixFirst(w3);
    MixColRotates(w);
    MixColRotates(w1);
    MixColRotates(w2);
    MixColRotates(MixCol(w));
    MixColRotates(Rot24(MixCol(w)));
    MixColRotates(Rot24(Rot24(MixCol(w))));
  }
}
