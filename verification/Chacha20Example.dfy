/** The examples of RFC 8439: the quarter round of section 2.1.1 and the block of section 2.3.2. */
module Chacha20Example {
  import opened Chacha20
  import opened StaticChacha20

  /** Section 2.1.1. */
  lemma QuarterExample()
    ensures Quarter(0x11111111, 0x01020304, 0x9b8d6f43, 0x01234567)
      == Quad(0xea2a92f4, 0xcb1cf8ce, 0x4581472e, 0x5881c4bb)
  {
  }

  // ---- rounds on sixteen words ----

  datatype Words = Words(x0: bv32, x1: bv32, x2: bv32, x3: bv32, x4: bv32, x5: bv32, x6: bv32, x7: bv32,
                         x8: bv32, x9: bv32, x10: bv32, x11: bv32, x12: bv32, x13: bv32, x14: bv32, x15: bv32)

  function At(w: Words, i: nat): bv32
    requires i < 16
  {
    if i == 0 then w.x0 else if i == 1 then w.x1 else if i == 2 then w.x2 else if i == 3 then w.x3
    else if i == 4 then w.x4 else if i == 5 then w.x5 else if i == 6 then w.x6 else if i == 7 then w.x7
    else if i == 8 then w.x8 else if i == 9 then w.x9 else if i == 10 then w.x10 else if i == 11 then w.x11
    else if i == 12 then w.x12 else if i == 13 then w.x13 else if i == 14 then w.x14 else w.x15
  }

  function List(w: Words): (s: seq<bv32>)
    ensures |s| == 16
  {
    seq(16, i requires 0 <= i < 16 => At(w, i))
  }

  lemma Listed(w: Words)
    ensures
      var s := List(w);
      && s[0] == w.x0 && s[1] == w.x1 && s[2] == w.x2 && s[3] == w.x3 && s[4] == w.x4 && s[5] == w.x5 && s[6] == w.x6
      && s[7] == w.x7 && s[8] == w.x8 && s[9] == w.x9 && s[10] == w.x10 && s[11] == w.x11 && s[12] == w.x12
      && s[13] == w.x13 && s[14] == w.x14 && s[15] == w.x15
  {
  }

  lemma SixteenEqual(s: seq<bv32>, t: seq<bv32>)
    requires |s| == |t| == 16
    requires s[0] == t[0] && s[1] == t[1] && s[2] == t[2] && s[3] == t[3] && s[4] == t[4] && s[5] == t[5]
    requires s[6] == t[6] && s[7] == t[7] && s[8] == t[8] && s[9] == t[9] && s[10] == t[10] && s[11] == t[11] && s[12]
      == t[12]
    requires s[13] == t[13] && s[14] == t[14] && s[15] == t[15]
    ensures s == t
  {
  }

  /** What a quarter round on four different words leaves where. */
  lemma QuarterWords(s: seq<bv32>, a: nat, b: nat, c: nat, d: nat)
    requires |s| == 16 && a < 16 && b < 16 && c < 16 && d < 16
    requires a != b && a != c && a != d && b != c && b != d && c != d
    ensures
      var q, r := Quarter(s[a], s[b], s[c], s[d]), QuarterRound(s, a, b, c, d);
      && r[a] == q.a && r[b] == q.b && r[c] == q.c && r[d] == q.d
      && forall i :: 0 <= i < 16 && i != a && i != b && i != c && i != d ==> r[i] == s[i]
  {
    hide Quarter;
  }

  /** The four column rounds. */
  function Columns(w: Words): Words {
    var p := Quarter(w.x0, w.x4, w.x8, w.x12);
    var q := Quarter(w.x1, w.x5, w.x9, w.x13);
    var r := Quarter(w.x2, w.x6, w.x10, w.x14);
    var s := Quarter(w.x3, w.x7, w.x11, w.x15);
    Words(p.a, q.a, r.a, s.a, p.b, q.b, r.b, s.b,
          p.c, q.c, r.c, s.c, p.d, q.d, r.d, s.d)
  }

  /** The four diagonal rounds. */
  function Diagonals(w: Words): Words {
    var p := Quarter(w.x0, w.x5, w.x10, w.x15);
    var q := Quarter(w.x1, w.x6, w.x11, w.x12);
    var r := Quarter(w.x2, w.x7, w.x8, w.x13);
    var s := Quarter(w.x3, w.x4, w.x9, w.x14);
    Words(p.a, q.a, r.a, s.a, s.b, p.b, q.b, r.b,
          r.c, s.c, p.c, q.c, q.d, r.d, s.d, p.d)
  }

  lemma ColumnsRounds(w: Words)
    ensures
      var s1 := QuarterRound(List(w), 0, 4, 8, 12);
      var s2 := QuarterRound(s1, 1, 5, 9, 13);
      var s3 := QuarterRound(s2, 2, 6, 10, 14);
      QuarterRound(s3, 3, 7, 11, 15) == List(Columns(w))
  {
    hide Quarter, QuarterRound;
    var s0, t := List(w), List(Columns(w));
    Listed(w);
    Listed(Columns(w));
    hide List;
    QuarterWords(s0, 0, 4, 8, 12);
    var s1 := QuarterRound(s0, 0, 4, 8, 12);
    QuarterWords(s1, 1, 5, 9, 13);
    var s2 := QuarterRound(s1, 1, 5, 9, 13);
    QuarterWords(s2, 2, 6, 10, 14);
    var s3 := QuarterRound(s2, 2, 6, 10, 14);
    QuarterWords(s3, 3, 7, 11, 15);
    var s4 := QuarterRound(s3, 3, 7, 11, 15);
    SixteenEqual(s4, t);
  }

  lemma DiagonalsRounds(w: Words)
    ensures
      var s1 := QuarterRound(List(w), 0, 5, 10, 15);
      var s2 := QuarterRound(s1, 1, 6, 11, 12);
      var s3 := QuarterRound(s2, 2, 7, 8, 13);
      QuarterRound(s3, 3, 4, 9, 14) == List(Diagonals(w))
  {
    hide Quarter, QuarterRound;
    var s0, t := List(w), List(Diagonals(w));
    Listed(w);
    Listed(Diagonals(w));
    hide List;
    QuarterWords(s0, 0, 5, 10, 15);
    var s1 := QuarterRound(s0, 0, 5, 10, 15);
    QuarterWords(s1, 1, 6, 11, 12);
    var s2 := QuarterRound(s1, 1, 6, 11, 12);
    QuarterWords(s2, 2, 7, 8, 13);
    var s3 := QuarterRound(s2, 2, 7, 8, 13);
    QuarterWords(s3, 3, 4, 9, 14);
    var s4 := QuarterRound(s3, 3, 4, 9, 14);
    SixteenEqual(s4, t);
  }

  lemma DoubleRoundIs(w: Words)
    ensures DoubleRound(List(w)) == List(Diagonals(Columns(w)))
  {
    hide QuarterRound, Columns, Diagonals, List;
    ColumnsRounds(w);
    DiagonalsRounds(Columns(w));
  }

  // ---- the twenty rounds of section 2.3.2 ----

  /** The states before the first and after every second round. */
  const STATES: seq<Words> := [
    Words(
      0x61707865, 0x3320646e, 0x79622d32, 0x6b206574, 0x03020100, 0x07060504, 0x0b0a0908, 0x0f0e0d0c,
      0x13121110, 0x17161514, 0x1b1a1918, 0x1f1e1d1c, 0x00000001, 0x09000000, 0x4a000000, 0x00000000),
    Words(
      0xcd52e917, 0x85ab03b4, 0xb3457395, 0xf96de7dd, 0xc4b7cd22, 0x5c2e187a, 0xc95eb461, 0x316c801a,
      0x7bf7d740, 0x7eddd644, 0xf1a1bdf5, 0x761246ca, 0x6b0d58a3, 0x6798471a, 0xd737f167, 0xf173888d),
    Words(
      0xcf1a7584, 0x048927ec, 0x54051fda, 0xc244ff28, 0x901d2f40, 0x7974b81c, 0x378dcfb4, 0xcd47fd0e,
      0x2dafb216, 0x27c89cd6, 0xcd3c9aa0, 0x79fc89c7, 0x10aef18d, 0x16218765, 0x68f76705, 0x04d6ee22),
    Words(
      0x03a14032, 0x66b15927, 0x9d6b6b42, 0xb84c4109, 0xa7143ae0, 0xa09b33dd, 0xa5daaf88, 0x2fd91a73,
      0xc90c6b18, 0x5a202413, 0xc20e01b6, 0x72cd6b74, 0xba35d777, 0xb360f1bf, 0x8178315b, 0x2cd11b1a),
    Words(
      0x9a2d3589, 0x0b23fc4e, 0x40af3b6b, 0xceea8144, 0x0a1bffc6, 0x5e5993f7, 0x9904c2e7, 0x0d334718,
      0xe46c6354, 0xc9503229, 0x04fef5aa, 0xf8933f72, 0x2687d476, 0x54e65231, 0x3594ffc5, 0x2b3bb2ca),
    Words(
      0xc53318c5, 0xca325d96, 0x7e7d11cb, 0x3404e2ca, 0x26d7cf73, 0x6088d379, 0xc0f0e9bd, 0xe310cdb9,
      0xae2ca8db, 0x42f67c72, 0x71669aca, 0x975c171d, 0x9e5ec228, 0x7d85a9f3, 0x201d0756, 0x63fa6953),
    Words(
      0x04a3131a, 0x66176309, 0x0415bab1, 0x61b880a2, 0x36cc86c7, 0xbf8a4465, 0xf77dd720, 0xfc0bdc90,
      0x07d13aca, 0xeb0be9af, 0x61599491, 0x918512dc, 0x33b6686d, 0x795cc671, 0xc0049972, 0xa0a81bde),
    Words(
      0x9b70f51f, 0x7ea8ac11, 0x21e54da9, 0xca393b2f, 0x93b08686, 0x6a4c50ae, 0x19212a5a, 0x9b032958,
      0xd839165e, 0x4c06e28a, 0xd3fde99e, 0x26acc13d, 0xa609f555, 0x2c246549, 0x95151853, 0x2c847a0d),
    Words(
      0xca5c85dd, 0x93a4f90e, 0xd9f0df58, 0x26dd82dd, 0x982563f8, 0x712aa9ff, 0x279a61e8, 0x970f72bd,
      0x1c25931a, 0x5180bb10, 0x779c27e7, 0x54077e08, 0xa9b751fb, 0x382f3ce2, 0x8db1757d, 0xcc38080b),
    Words(
      0xb6b87de6, 0x9a016148, 0x93859815, 0x4915e6cc, 0xdc33c122, 0x98e18fa3, 0x5ffbe8fc, 0xf7154b8b,
      0x28c1fcb3, 0xc4b38f9d, 0x83e2f5d7, 0x7d24b98b, 0x21078b22, 0xb193e7a3, 0xb2f49389, 0x6cde6026),
    Words(
      0x837778ab, 0xe238d763, 0xa67ae21e, 0x5950bb2f, 0xc4f2d0c7, 0xfc62bb2f, 0x8fa018fc, 0x3f5ec7b7,
      0x335271c2, 0xf29489f3, 0xeabda8fc, 0x82e46ebd, 0xd19c12b4, 0xb04e16de, 0x9e83d0cb, 0x4e3c50a2)
  ]

  lemma StatesLength()
    ensures |STATES| == 11
  {
  }

  predicate Follows(n: nat)
    requires n < 10
  {
    StatesLength();
    Diagonals(Columns(STATES[n])) == STATES[n + 1]
  }

  lemma DoubleRound1()
    ensures Follows(0)
  {
    StatesLength();
    assert Columns(STATES[0]) == Words(
      0xabbaa25c, 0x1efa51ea, 0x7354fbdf, 0x83d2dc69, 0x3a465196, 0x1c7e64f6, 0xb12fb628, 0xf05b6976,
      0x6b3ca454, 0x08eb14b1, 0xbf8a9ac9, 0xe444df3b, 0xdec62ed2, 0x8862cc77, 0x6e35b345, 0x52a647f1);
  }

  lemma DoubleRound2()
    ensures Follows(1)
  {
    StatesLength();
    assert Columns(STATES[1]) == Words(
      0xe3e1111b, 0xa6291491, 0x5a82b80c, 0x4500fd45, 0xd65b5b5b, 0xf56af099, 0x4ccc8103, 0xc94d29e2,
      0xe67aec54, 0xf7a52d82, 0xdb470914, 0xdfb40f1d, 0x7be81c0d, 0x1d92d0fd, 0x13139f8c, 0x7a26ecaa);
  }

  lemma DoubleRound3()
    ensures Follows(2)
  {
    StatesLength();
    assert Columns(STATES[2]) == Words(
      0xa22695f2, 0xa908cf6c, 0xe6ae05b2, 0xfe0ff04b, 0x1ece4458, 0xe82b726f, 0x5a21ab90, 0x87698c64,
      0xf2d36da6, 0xf4dab980, 0x7baf5573, 0xa78c270d, 0x6fda6bf7, 0x65a4b0ce, 0x25e6d76e, 0x1b7b11ec);
  }

  lemma DoubleRound4()
    ensures Follows(3)
  {
    StatesLength();
    assert Columns(STATES[3]) == Words(
      0xfecd0838, 0x160ab468, 0x9a0ddf4e, 0xbac7154a, 0xcedf6624, 0xb11de6c4, 0xbd7810ef, 0xd22b5643,
      0x1d8a33ea, 0x87dc1ca9, 0x89bd34a5, 0x5505ef62, 0xa818b852, 0xb100446a, 0x9c1d70b1, 0xa1d1befa);
  }

  lemma DoubleRound5()
    ensures Follows(4)
  {
    StatesLength();
    assert Columns(STATES[4]) == Words(
      0x85e7824a, 0x4940cd9e, 0xfbe7684b, 0x7335d03d, 0x1c133ea1, 0xbba40b0f, 0x9413992a, 0xa4ab2040,
      0xa3a66a86, 0xc0b4754f, 0x771b4ecb, 0x165151a1, 0xde008464, 0x34f0058b, 0x70846cfa, 0xa3271b09);
  }

  lemma DoubleRound6()
    ensures Follows(5)
  {
    StatesLength();
    assert Columns(STATES[5]) == Words(
      0x9950b826, 0xcac7ccc6, 0x84a67673, 0xdb3109a6, 0x2121065a, 0xc12bdadb, 0xcae3acd1, 0x594616cb,
      0x19078de2, 0x178ecc02, 0xe6adbdb2, 0x52a9d50e, 0x40ca72b3, 0x3b9bf852, 0x78690378, 0xe17d4902);
  }

  lemma DoubleRound7()
    ensures Follows(6)
  {
    StatesLength();
    assert Columns(STATES[6]) == Words(
      0x57c5e6da, 0x35ce46a8, 0x0c041bb9, 0xfa91df79, 0x8e85d82f, 0xb4819d06, 0xb63be200, 0xacd221e4,
      0x434b4749, 0x1d459c00, 0x111cfe2c, 0x55942604, 0x49ee03a6, 0xd11a5554, 0xa7202e04, 0x7d2215bc);
  }

  lemma DoubleRound8()
    ensures Follows(7)
  {
    StatesLength();
    assert Columns(STATES[7]) == Words(
      0xc0b18aee, 0x087445ba, 0x36e52ad9, 0xa777426a, 0xdeb54e9c, 0x802c883b, 0x06e86889, 0x3c002680,
      0xa82d65d4, 0x687f11eb, 0xe9d36207, 0x4242ddae, 0x4103c64e, 0x82816a91, 0xb584ca56, 0xfd0bd2b9);
  }

  lemma DoubleRound9()
    ensures Follows(8)
  {
    StatesLength();
    assert Columns(STATES[8]) == Words(
      0x765c6e9c, 0x5ab09b11, 0x3ee7da04, 0x37c31203, 0x9046ecaa, 0x7b88d882, 0xb9b577dd, 0x156de7ed,
      0x46fa091e, 0x5117e9b5, 0x862ff22b, 0xa3fcc7a6, 0x72a5aace, 0x5fa7f1c5, 0xda563e0a, 0x5263d7ca);
  }

  lemma DoubleRound10()
    ensures Follows(9)
  {
    StatesLength();
    assert Columns(STATES[9]) == Words(
      0x8a07ff15, 0x0cadc51c, 0x017c8da9, 0x4afbe5df, 0x913768fe, 0x442a0c0c, 0x598fe3bb, 0x47d18828,
      0x0a39aedc, 0xc1428029, 0x7b48135f, 0x5a5f1098, 0x2d4cfe3e, 0xe5466d1b, 0xe4ccdc13, 0x8ac92a18);
  }

  lemma OneDoubleRound(n: nat)
    requires n < 10
    ensures Follows(n)
  {
    hide Follows;
    DoubleRound1();
    DoubleRound2();
    DoubleRound3();
    DoubleRound4();
    DoubleRound5();
    DoubleRound6();
    DoubleRound7();
    DoubleRound8();
    DoubleRound9();
    DoubleRound10();
    assert n == 0 || n == 1 || n == 2 || n == 3 || n == 4 || n == 5 || n == 6 || n == 7 || n == 8 || n == 9;
  }

  lemma {:induction false} AllRounds(n: nat)
    requires n <= 10
    ensures |STATES| == 11 && DoubleRounds(List(STATES[0]), n) == List(STATES[n])
  {
    hide STATES, DoubleRound, List, Columns, Diagonals;
    StatesLength();
    if n > 0 {
      AllRounds(n - 1);
      OneDoubleRound(n - 1);
      DoubleRoundIs(STATES[n - 1]);
    }
  }

  // ---- the key, the nonce and the block ----

  /** 00:01:02:..:1f */
  const KEY: seq<bv8> := [
    0x00, 0x01, 0x02, 0x03, 0x04, 0x05, 0x06, 0x07, 0x08, 0x09, 0x0a, 0x0b, 0x0c, 0x0d, 0x0e, 0x0f,
    0x10, 0x11, 0x12, 0x13, 0x14, 0x15, 0x16, 0x17, 0x18, 0x19, 0x1a, 0x1b, 0x1c, 0x1d, 0x1e, 0x1f
  ]

  /** 00:00:00:09:00:00:00:4a:00:00:00:00 */
  const NONCE: seq<bv8> := [0x00, 0x00, 0x00, 0x09, 0x00, 0x00, 0x00, 0x4a, 0x00, 0x00, 0x00, 0x00]

  /** The first four words are the letters "expand 32-byte k". */
  lemma Letters()
    ensures |CONSTANTS| == 4
    ensures CONSTANTS[0] == LoadLe(0x65, 0x78, 0x70, 0x61) && CONSTANTS[1] == LoadLe(0x6e, 0x64, 0x20, 0x33)
    ensures CONSTANTS[2] == LoadLe(0x32, 0x2d, 0x62, 0x79) && CONSTANTS[3] == LoadLe(0x74, 0x65, 0x20, 0x6b)
  {
  }

  lemma KeyWords0()
    ensures |KEY| == 32 && WordAt(KEY, 0) == 0x03020100 && WordAt(KEY, 4) == 0x07060504
  {
  }

  lemma KeyWords1()
    ensures |KEY| == 32 && WordAt(KEY, 8) == 0x0b0a0908 && WordAt(KEY, 12) == 0x0f0e0d0c
  {
  }

  lemma KeyWords2()
    ensures |KEY| == 32 && WordAt(KEY, 16) == 0x13121110 && WordAt(KEY, 20) == 0x17161514
  {
  }

  lemma KeyWords3()
    ensures |KEY| == 32 && WordAt(KEY, 24) == 0x1b1a1918 && WordAt(KEY, 28) == 0x1f1e1d1c
  {
  }

  lemma NonceWords()
    ensures |NONCE| == 12 && WordAt(NONCE, 0) == 0x09000000 && WordAt(NONCE, 4) == 0x4a000000 && WordAt(NONCE, 8) == 0
  {
  }

  lemma FirstState()
    ensures |STATES| == 11 && STATES[0] == Words(
      0x61707865, 0x3320646e, 0x79622d32, 0x6b206574, 0x03020100, 0x07060504, 0x0b0a0908, 0x0f0e0d0c,
      0x13121110, 0x17161514, 0x1b1a1918, 0x1f1e1d1c, 0x00000001, 0x09000000, 0x4a000000, 0x00000000)
    ensures |CONSTANTS| == 4 && CONSTANTS[0] == 0x61707865 && CONSTANTS[1] == 0x3320646e
    ensures CONSTANTS[2] == 0x79622d32 && CONSTANTS[3] == 0x6b206574
  {
  }

  lemma StateWords()
    ensures |KEY| == 32 && |NONCE| == 12 && |STATES| == 11 && InitialState(KEY, NONCE, 1) == List(STATES[0])
  {
    hide KEY, NONCE, STATES, CONSTANTS, WordAt;
    FirstState();
    KeyWords0();
    KeyWords1();
    KeyWords2();
    KeyWords3();
    NonceWords();
    SixteenEqual(InitialState(KEY, NONCE, 1), List(STATES[0]));
  }

  /** The key stream block of section 2.3.2. */
  const BLOCK: seq<bv32> := [
    0xe4e7f110, 0x15593bd1, 0x1fdd0f50, 0xc47120a3, 0xc7f4d1c7, 0x0368c033, 0x9aaa2204, 0x4e6cd4c3,
    0x466482d2, 0x09aa9f07, 0x05d7c214, 0xa2028bd9, 0xd19c12b5, 0xb94e16de, 0xe883d0cb, 0x4e3c50a2
  ]

  lemma LastSum()
    ensures |STATES| == 11 && |BLOCK| == 16
    ensures forall i :: 0 <= i < 16 ==> Add(At(STATES[10], i), At(STATES[0], i)) == BLOCK[i]
  {
    var s, t := Words(
        0x837778ab, 0xe238d763, 0xa67ae21e, 0x5950bb2f, 0xc4f2d0c7, 0xfc62bb2f, 0x8fa018fc, 0x3f5ec7b7,
        0x335271c2, 0xf29489f3, 0xeabda8fc, 0x82e46ebd, 0xd19c12b4, 0xb04e16de, 0x9e83d0cb, 0x4e3c50a2),
      Words(
        0x61707865, 0x3320646e, 0x79622d32, 0x6b206574, 0x03020100, 0x07060504, 0x0b0a0908, 0x0f0e0d0c,
        0x13121110, 0x17161514, 0x1b1a1918, 0x1f1e1d1c, 0x00000001, 0x09000000, 0x4a000000, 0x00000000);
    assert STATES[10] == s && STATES[0] == t;
    forall i | 0 <= i < 16 ensures Add(At(s, i), At(t, i)) == BLOCK[i] {
      assert i == 0 || i == 1 || i == 2 || i == 3 || i == 4 || i == 5 || i == 6 || i == 7
          || i == 8 || i == 9 || i == 10 || i == 11 || i == 12 || i == 13 || i == 14 || i == 15;
    }
  }

  /** Section 2.3.2: the block for the key, the nonce and block counter 1. */
  lemma BlockExample()
    ensures |KEY| == 32 && |NONCE| == 12 && Block(InitialState(KEY, NONCE, 1)) == BLOCK
  {
    hide KEY, NONCE, STATES, BLOCK, Add, At, DoubleRounds, InitialState;
    StateWords();
    AllRounds(10);
    LastSum();
    var s := InitialState(KEY, NONCE, 1);
    forall i | 0 <= i < 16 ensures Block(s)[i] == BLOCK[i] {
      assert DoubleRounds(s, 10)[i] == At(STATES[10], i) && s[i] == At(STATES[0], i);
    }
  }

  /** Section 2.3.2 on the code: chacha20_core on the state that chacha20_init makes. */
  method CoreExample(k: array<bv32>, ctx: array<bv32>, key: array<bv8>, nonce: array<bv8>)
    requires k.Length == 16 && ctx.Length == 16 && k != ctx
    requires key.Length == 32 && nonce.Length == 12 && key[..] == KEY && nonce[..] == NONCE
    modifies k, ctx
    ensures k[..] == BLOCK
  {
    hide KEY, NONCE, BLOCK, Block, InitialState, Advance;
    Init(ctx, key, nonce, 1);
    Core(k, ctx, 0);
    AdvanceNone(InitialState(KEY, NONCE, 1));
    BlockExample();
  }

  lemma AdvanceNone(s: seq<bv32>)
    requires |s| == 16
    ensures Advance(s, 0) == s
  {
  }

  // ---- the key stream in general ----

  lemma AdvanceCounter(key: seq<bv8>, nonce: seq<bv8>, ctr: bv32, step: bv32)
    requires |key| == 32 && |nonce| == 12
    ensures Advance(InitialState(key, nonce, ctr), step) == InitialState(key, nonce, Add(ctr, step))
  {
    hide Add, WordAt, CONSTANTS;
  }

  /** Block n of the key stream belongs to the block counter advanced by n. */
  lemma CounterAdvances(key: seq<bv8>, nonce: seq<bv8>, ctr: bv32, n: nat)
    requires |key| == 32 && |nonce| == 12
    ensures KeyBlock(InitialState(key, nonce, ctr), n)
      == Block(InitialState(key, nonce, Add(ctr, (n % 0x1_0000_0000) as bv32)))
  {
    hide Add, Block, InitialState, Advance;
    AdvanceCounter(key, nonce, ctr, (n % 0x1_0000_0000) as bv32);
  }

  lemma KeyByteAt(ctx: seq<bv32>, n: nat, i: nat, j: nat)
    requires |ctx| == 16 && i < 16 && j < 4
    ensures KeyByte(ctx, 64 * n + 4 * i + j) == ByteLe(KeyBlock(ctx, n)[i], j)
  {
    hide KeyBlock, ByteLe;
    var p := 64 * n + 4 * i + j;
    assert p / 64 == n && p % 64 == 4 * i + j && (4 * i + j) / 4 == i && p % 4 == j;
  }

  /** The bytes of a word count from the least significant one. */
  lemma BytesLoaded(w: bv32)
    ensures LoadLe(ByteLe(w, 0), ByteLe(w, 1), ByteLe(w, 2), ByteLe(w, 3)) == w
  {
  }

  /** The cipher (section 2.4): byte k of word i of block n of the text is xored with that byte of the block
      function of the state whose counter is n more. */
  lemma CipherIs(key: seq<bv8>, nonce: seq<bv8>, ctr: bv32, text: seq<bv8>, n: nat, i: nat, k: nat)
    requires |key| == 32 && |nonce| == 12 && i < 16 && k < 4 && 64 * n + 4 * i + k < |text|
    ensures
      var j := 64 * n + 4 * i + k;
      var w := Block(InitialState(key, nonce, Add(ctr, (n % 0x1_0000_0000) as bv32)))[i];
      Cipher(InitialState(key, nonce, ctr), text)[j] == text[j] ^ ByteLe(w, k)
  {
    hide Block, InitialState, KeyBlock, KeyByte, Add, ByteLe;
    KeyByteAt(InitialState(key, nonce, ctr), n, i, k);
    CounterAdvances(key, nonce, ctr, n);
  }
}
