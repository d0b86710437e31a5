/** The example of section B.1 of FIPS 180-2: the hash of "abc". */
module Sha256Example {
  import opened Sha256
  import opened Sha256Trace

  /** The compression of the block of "abc". */
  const ABC: Trace := Trace(
    [
      [0x61626380, 0x00000000, 0x00000000, 0x00000000, 0x00000000, 0x00000000, 0x00000000, 0x00000000],
      [0x00000000, 0x00000000, 0x00000000, 0x00000000, 0x00000000, 0x00000000, 0x00000000, 0x00000018],
      [0x61626380, 0x000f0000, 0x7da86405, 0x600003c6, 0x3e9d7b78, 0x0183fc00, 0x12dcbfdb, 0xe2e2c38e],
      [0xc8215c1a, 0xb73679a2, 0xe5bc3909, 0x32663c5b, 0x9d209d67, 0xec8726cb, 0x702138a4, 0xd3b7973b],
      [0x93f5997f, 0x3b68ba73, 0xaff4ffc1, 0xf10a5c62, 0x0a8b3996, 0x72af830a, 0x9409e33e, 0x24641522],
      [0x9f47bf94, 0xf0a64f5a, 0x3e246a79, 0x27333ba3, 0x0c4763f2, 0x840abf27, 0x7a290d5d, 0x065c43da],
      [0xfb3e89cb, 0xcc7617db, 0xb9e66c34, 0xa9993667, 0x84badedd, 0xc21462bc, 0x1487472c, 0xb20f7a99],
      [0xef57b9cd, 0xebe6b238, 0x9fe3095e, 0x78bc8d4b, 0xa43fcf15, 0x668b2ff8, 0xeeaba2cc, 0x12b1edeb]
    ],
    [
      [0x5d6aebcd, 0x5a6ad9ad, 0xc8c347a7, 0xd550f666, 0x04409a6a, 0x2b4209f5, 0xe5030380, 0x85a07b5f],
      [0x8e04ecb9, 0x8c87346b, 0x4798a3f4, 0xf71fc5a9, 0x87912990, 0xd932eb16, 0xc0645fde, 0xb0fa238e],
      [0x21da9a9b, 0xc2fbd9d1, 0xfe777bbf, 0xe1f20c33, 0x9dc68b63, 0xc2606d6d, 0xa7a3623f, 0xc5d53d8d],
      [0x1c2c2838, 0xcde8037d, 0xb62ec4bc, 0x77d37528, 0x363482c9, 0xa0060b30, 0xea992a22, 0x73b33bf5],
      [0x98e12507, 0xfe604df5, 0xa9a7738c, 0x65a0cfe4, 0x41a65cb1, 0x34df1604, 0x6dc57a8a, 0x79ea687a],
      [0xd6670766, 0xdf46652f, 0x17aa0dfe, 0x9d4baf93, 0x26628815, 0x72ab4b91, 0xa14c14b0, 0x4172328d],
      [0x05757ceb, 0xf11bfaa8, 0x7a0508a1, 0x886e7a22, 0x101fd28f, 0xf5702fdb, 0x3ec45cdb, 0x38cc9913],
      [0xfcd1887b, 0xc062d46f, 0xffb70472, 0xb6ae8fff, 0xb85e2ce9, 0x04d24d6c, 0xd39a2165, 0x506e3058]
    ],
    [
      [0xfa2a4622, 0x78ce7989, 0xf92939eb, 0x24e00850, 0x43ada245, 0x714260ad, 0x9b27a401, 0x0c657a79],
      [0x32ca2d8c, 0x1cc92596, 0x436b23e8, 0x816fd6e9, 0x1e578218, 0x745a48de, 0x0b92f20c, 0x07590dcd],
      [0x8034229c, 0x846ee454, 0xcc899961, 0xb0638179, 0x8ada8930, 0xe1257970, 0x49f5114a, 0xaa47c347],
      [0x2823ef91, 0x14383d8e, 0xc74c6516, 0xedffbff8, 0x6112a3b7, 0xade79437, 0x0109ab3a, 0xba591112],
      [0x9cd9f5f6, 0x59249dd3, 0x085f3833, 0xf4b002d6, 0x0772a26b, 0xa507a53d, 0xf0781bc8, 0x1efbc0a0],
      [0x26352d63, 0x838b2711, 0xdecd4715, 0xfda24c2e, 0xa80f11f0, 0xb7755da1, 0xd57b94a9, 0xfecf0bc6],
      [0xbd714038, 0x6e5c390c, 0x52f1ccf7, 0x49231c1e, 0x529e7d00, 0x9f4787c3, 0xe50e1b4f, 0x54cb266b],
      [0x9b5e906c, 0x7e44008e, 0x6d83bfc6, 0xb21bad3d, 0x961f4894, 0x948d25b6, 0xfb121210, 0x5ef50f24]
    ])

  lemma AbcSchedule2()
    ensures Shape(ABC) && ScheduleRow(ABC, 2) && ScheduleRow(ABC, 3)
  {
  }

  lemma AbcSchedule4()
    ensures Shape(ABC) && ScheduleRow(ABC, 4) && ScheduleRow(ABC, 5)
  {
  }

  lemma AbcSchedule6()
    ensures Shape(ABC) && ScheduleRow(ABC, 6) && ScheduleRow(ABC, 7)
  {
  }

  lemma AbcRounds0()
    ensures Shape(ABC) && |H0| == 8 && RoundsRow(H0, ABC, 0)
  {
  }

  lemma AbcRounds1()
    ensures Shape(ABC) && |H0| == 8 && RoundsRow(H0, ABC, 1)
  {
  }

  lemma AbcRounds2()
    ensures Shape(ABC) && |H0| == 8 && RoundsRow(H0, ABC, 2)
  {
  }

  lemma AbcRounds3()
    ensures Shape(ABC) && |H0| == 8 && RoundsRow(H0, ABC, 3)
  {
  }

  lemma AbcRounds4()
    ensures Shape(ABC) && |H0| == 8 && RoundsRow(H0, ABC, 4)
  {
  }

  lemma AbcRounds5()
    ensures Shape(ABC) && |H0| == 8 && RoundsRow(H0, ABC, 5)
  {
  }

  lemma AbcRounds6()
    ensures Shape(ABC) && |H0| == 8 && RoundsRow(H0, ABC, 6)
  {
  }

  lemma AbcRounds7()
    ensures Shape(ABC) && |H0| == 8 && RoundsRow(H0, ABC, 7)
  {
  }

  lemma AbcTraces()
    ensures Shape(ABC) && |H0| == 8 && Traces(H0, ABC)
  {
    hide ScheduleRow, RoundsRow, ABC, H0;
    AbcSchedule2();
    AbcSchedule4();
    AbcSchedule6();
    AbcRounds0();
    AbcRounds1();
    AbcRounds2();
    AbcRounds3();
    AbcRounds4();
    AbcRounds5();
    AbcRounds6();
    AbcRounds7();
    forall k | 2 <= k < 8 ensures ScheduleRow(ABC, k) {
      assert k == 2 || k == 3 || k == 4 || k == 5 || k == 6 || k == 7;
    }
    forall k | 0 <= k < 8 ensures RoundsRow(H0, ABC, k) {
      assert k == 0 || k == 1 || k == 2 || k == 3 || k == 4 || k == 5 || k == 6 || k == 7;
    }
  }

  // ---- the block and the digest ----

  const LETTERS: seq<bv8> := [0x61, 0x62, 0x63]

  lemma AbcWords()
    ensures |LETTERS + Padding(3)| == 64 && Words(LETTERS + Padding(3)) == ABC.w[0] + ABC.w[1]
  {
    hide ABC, Padding, Word, Join;
    var block := LETTERS + Padding(3);
    LastBlock(LETTERS, 3);
    AbcFirstWords();
    assert block[0] == block[..3][0] && block[1] == block[..3][1] && block[2] == block[..3][2];
    WordOfBytes(block, 0, 0x61, 0x62, 0x63, 0x80);
    forall p | 4 <= p <= 56 ensures Word(block, p) == 0 { WordOfBytes(block, p, 0, 0, 0, 0); }
    WordOfBytes(block, 60, 0, 0, 0, 0x18);
    SixteenWords(block, ABC.w[0], ABC.w[1]);
  }

  lemma AbcFirstWords()
    ensures Join(0x61, 0x62, 0x63, 0x80) == 0x61626380 && Join(0, 0, 0, 0) == 0 && Join(0, 0, 0, 0x18) == 0x18
    ensures Shape(ABC) && ABC.w[0] == [0x61626380, 0, 0, 0, 0, 0, 0, 0] && ABC.w[1] == [0, 0, 0, 0, 0, 0, 0, 0x18]
  {
  }

  const ABC_HASH: seq<bv32> := [
    0xba7816bf, 0x8f01cfea, 0x414140de, 0x5dae2223, 0xb00361a3, 0x96177a9c, 0xb410ff61, 0xf20015ad
  ]

  lemma AbcSum()
    ensures |H0| == 8 && Shape(ABC) && AddTo(H0, Last(ABC.a[7], ABC.e[7])) == ABC_HASH
  {
  }

  /** SHA-256 of "abc" is ba7816bf 8f01cfea 414140de 5dae2223 b00361a3 96177a9c b410ff61 f20015ad. */
  lemma HashOfAbc()
    ensures |ABC_HASH| == 8 && Hash(LETTERS) == Digest(ABC_HASH)
    ensures forall i :: 0 <= i < 8 ==> Word(Hash(LETTERS), 4 * i) == ABC_HASH[i]
  {
    hide ABC, H0, ABC_HASH, Compress, Blocks, Digest, Word, AddTo;
    TableSizes();
    AbcTraces();
    AbcWords();
    TraceCompresses(H0, LETTERS + Padding(3), ABC);
    BlocksOne(H0, LETTERS + Padding(3));
    AbcSum();
    forall i | 0 <= i < 8 ensures Word(Digest(ABC_HASH), 4 * i) == ABC_HASH[i] { DigestWord(ABC_HASH, i); }
  }
}
