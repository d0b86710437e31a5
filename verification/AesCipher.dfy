/** Nettle's AES rounds, and decryption with inverted subkeys undoing encryption. */
module AesCipher {
  import opened AesTables
  import opened Aes
  import opened AesRotated

  // ---- table rounds ----

  /** AES_ROUND: one look-up in each of the four tables. */
  function EncryptRound(w0: Word, w1: Word, w2: Word, w3: Word, k: Word): Word {
    WordTables();
    RotatedTables();
    XorW(XorW(XorW(XorW(Bytes(At(ETABLE, w0.b0)), Bytes(At(ETABLE1, w1.b1))), Bytes(At(ETABLE2, w2.b2))),
              Bytes(At(ETABLE3, w3.b3))), k)
  }

  function DecryptRound(w0: Word, w1: Word, w2: Word, w3: Word, k: Word): Word {
    WordTables();
    RotatedTables();
    XorW(XorW(XorW(XorW(Bytes(At(DTABLE, w0.b0)), Bytes(At(DTABLE1, w1.b1))), Bytes(At(DTABLE2, w2.b2))),
              Bytes(At(DTABLE3, w3.b3))), k)
  }

  /** The bytes of a column after ShiftRows and SubBytes. */
  function Subbed(w0: Word, w1: Word, w2: Word, w3: Word): Word {
    Word(SubByte(w0.b0), SubByte(w1.b1), SubByte(w2.b2), SubByte(w3.b3))
  }

  function InvSubbed(w0: Word, w1: Word, w2: Word, w3: Word): Word {
    Word(InvSubByte(w0.b0), InvSubByte(w1.b1), InvSubByte(w2.b2), InvSubByte(w3.b3))
  }

  /** A table round is SubBytes, ShiftRows, MixColumns and AddRoundKey on one column. */
  lemma EncryptRoundIs(w0: Word, w1: Word, w2: Word, w3: Word, k: Word)
    ensures EncryptRound(w0, w1, w2, w3, k) == XorW(MixCol(Subbed(w0, w1, w2, w3)), k)
  {
    hide XorW, MixByte, SubByte, Bytes, ETABLE, ETABLE1, ETABLE2, ETABLE3;
    EncryptTables(w1.b1);
    EncryptTables(w2.b2);
    EncryptTables(w3.b3);
    EncryptEntry(w0.b0);
    EncryptEntry(w1.b1);
    EncryptEntry(w2.b2);
    EncryptEntry(w3.b3);
  }

  lemma DecryptRoundIs(w0: Word, w1: Word, w2: Word, w3: Word, k: Word)
    ensures DecryptRound(w0, w1, w2, w3, k) == XorW(InvMixCol(InvSubbed(w0, w1, w2, w3)), k)
  {
    hide XorW, InvMixByte, InvSubByte, Bytes, DTABLE, DTABLE1, DTABLE2, DTABLE3;
    DecryptTables(w1.b1);
    DecryptTables(w2.b2);
    DecryptTables(w3.b3);
    DecryptEntry(w0.b0);
    DecryptEntry(w1.b1);
    DecryptEntry(w2.b2);
    DecryptEntry(w3.b3);
  }

  // ---- the cipher ----

  datatype Block = Block(w0: Word, w1: Word, w2: Word, w3: Word)

  function XorB(x: Block, k: Block): Block {
    Block(XorW(x.w0, k.w0), XorW(x.w1, k.w1), XorW(x.w2, k.w2), XorW(x.w3, k.w3))
  }

  /** SubBytes and ShiftRows. */
  function SubShift(x: Block): Block {
    Block(Subbed(x.w0, x.w1, x.w2, x.w3), Subbed(x.w1, x.w2, x.w3, x.w0), Subbed(x.w2, x.w3, x.w0, x.w1),
          Subbed(x.w3, x.w0, x.w1, x.w2))
  }

  function InvSubShift(x: Block): Block {
    Block(InvSubbed(x.w0, x.w3, x.w2, x.w1), InvSubbed(x.w1, x.w0, x.w3, x.w2),
          InvSubbed(x.w2, x.w1, x.w0, x.w3), InvSubbed(x.w3, x.w2, x.w1, x.w0))
  }

  function MixB(x: Block): Block { Block(MixCol(x.w0), MixCol(x.w1), MixCol(x.w2), MixCol(x.w3)) }

  function InvMixB(x: Block): Block { Block(InvMixCol(x.w0), InvMixCol(x.w1), InvMixCol(x.w2), InvMixCol(x.w3)) }

  /** Subkey number i. */
  function KeyAt(keys: seq<Word>, i: nat): Block
    requires 4 * i + 4 <= |keys|
  {
    Block(keys[4 * i], keys[4 * i + 1], keys[4 * i + 2], keys[4 * i + 3])
  }

  /** The state of the encryption of p after r rounds, and the result after all R. */
  function EncState(keys: seq<Word>, p: Block, r: nat): Block
    requires 4 * r + 4 <= |keys|
  {
    if r == 0 then XorB(p, KeyAt(keys, 0)) else XorB(MixB(SubShift(EncState(keys, p, r - 1))), KeyAt(keys, r))
  }

  function Encrypt(keys: seq<Word>, rounds: nat, p: Block): Block
    requires 1 <= rounds && 4 * rounds + 4 <= |keys|
  {
    XorB(SubShift(EncState(keys, p, rounds - 1)), KeyAt(keys, rounds))
  }

  /** Decryption: the same structure on inverted steps (section 5.3.5 of FIPS 197). */
  function DecState(keys: seq<Word>, c: Block, r: nat): Block
    requires 4 * r + 4 <= |keys|
  {
    if r == 0 then XorB(c, KeyAt(keys, 0)) else XorB(InvMixB(InvSubShift(DecState(keys, c, r - 1))), KeyAt(keys, r))
  }

  function Decrypt(keys: seq<Word>, rounds: nat, c: Block): Block
    requires 1 <= rounds && 4 * rounds + 4 <= |keys|
  {
    XorB(InvSubShift(DecState(keys, c, rounds - 1)), KeyAt(keys, rounds))
  }

  /** The subkeys for decryption: in reverse order, all but the first and the last mixed inversely. */
  function InvertKeys(keys: seq<Word>, rounds: nat): (r: seq<Word>)
    requires 4 * rounds + 4 <= |keys|
    ensures |r| == 4 * rounds + 4
  {
    seq(4 * rounds + 4, i requires 0 <= i < 4 * rounds + 4 =>
      var w := keys[4 * (rounds - i / 4) + i % 4];
      if 4 <= i < 4 * rounds then InvMixCol(w) else w)
  }

  lemma InvertedKey(keys: seq<Word>, rounds: nat, i: nat)
    requires 4 * rounds + 4 <= |keys| && i <= rounds
    ensures KeyAt(InvertKeys(keys, rounds), i)
      == if 1 <= i < rounds then InvMixB(KeyAt(keys, rounds - i)) else KeyAt(keys, rounds - i)
  {
    hide InvMixCol;
    var d := InvertKeys(keys, rounds);
    assert (4 * i) / 4 == i && (4 * i + 1) / 4 == i && (4 * i + 2) / 4 == i && (4 * i + 3) / 4 == i;
    assert (4 * i) % 4 == 0 && (4 * i + 1) % 4 == 1 && (4 * i + 2) % 4 == 2 && (4 * i + 3) % 4 == 3;
  }

  lemma XorBLaws(x: Block, k: Block)
    ensures XorB(XorB(x, k), k) == x
  {
    hide XorW;
    XorWLaws(x.w0, k.w0);
    XorWLaws(x.w1, k.w1);
    XorWLaws(x.w2, k.w2);
    XorWLaws(x.w3, k.w3);
  }

  lemma InvMixBAdd(x: Block, y: Block)
    ensures InvMixB(XorB(x, y)) == XorB(InvMixB(x), InvMixB(y))
  {
    hide XorW, InvMixCol;
    InvMixColAdd(x.w0, y.w0);
    InvMixColAdd(x.w1, y.w1);
    InvMixColAdd(x.w2, y.w2);
    InvMixColAdd(x.w3, y.w3);
  }

  lemma InvMixMixB(x: Block)
    ensures InvMixB(MixB(x)) == x
  {
    hide MixCol, InvMixCol;
    InvMixMix(x.w0);
    InvMixMix(x.w1);
    InvMixMix(x.w2);
    InvMixMix(x.w3);
  }

  lemma InvSubbedBack(w0: Word, w1: Word, w2: Word, w3: Word)
    ensures InvSubbed(Subbed(w0, w1, w2, w3), Subbed(w3, w0, w1, w2), Subbed(w2, w3, w0, w1), Subbed(w1, w2, w3, w0))
      == w0
  {
    hide SubByte, InvSubByte;
    InvSubSub(w0.b0);
    InvSubSub(w0.b1);
    InvSubSub(w0.b2);
    InvSubSub(w0.b3);
  }

  lemma InvSubShiftBack(x: Block)
    ensures InvSubShift(SubShift(x)) == x
  {
    hide Subbed, InvSubbed;
    InvSubbedBack(x.w0, x.w1, x.w2, x.w3);
    InvSubbedBack(x.w1, x.w2, x.w3, x.w0);
    InvSubbedBack(x.w2, x.w3, x.w0, x.w1);
    InvSubbedBack(x.w3, x.w0, x.w1, x.w2);
  }

  /** After r rounds of decryption the state is the one encryption had before its last r+1 subkeys. */
  lemma {:induction false} DecryptingState(keys: seq<Word>, rounds: nat, p: Block, r: nat)
    requires 4 * rounds + 4 <= |keys| && r < rounds
    ensures DecState(InvertKeys(keys, rounds), Encrypt(keys, rounds, p), r)
      == SubShift(EncState(keys, p, rounds - 1 - r))
  {
    hide XorB, MixB, InvMixB, SubShift, InvSubShift, KeyAt, InvertKeys;
    var d, c := InvertKeys(keys, rounds), Encrypt(keys, rounds, p);
    InvertedKey(keys, rounds, r);
    if r == 0 {
      XorBLaws(SubShift(EncState(keys, p, rounds - 1)), KeyAt(keys, rounds));
    } else {
      DecryptingState(keys, rounds, p, r - 1);
      var x, y := EncState(keys, p, rounds - r), SubShift(EncState(keys, p, rounds - 1 - r));
      var k := KeyAt(keys, rounds - r);
      InvSubShiftBack(x);
      assert x == XorB(MixB(y), k);
      InvMixBAdd(MixB(y), k);
      InvMixMixB(y);
      XorBLaws(y, InvMixB(k));
    }
  }

  /** Main result: for any subkeys, decryption with the inverted subkeys undoes encryption. */
  lemma DecryptEncrypt(keys: seq<Word>, rounds: nat, p: Block)
    requires 1 <= rounds && 4 * rounds + 4 <= |keys|
    ensures Decrypt(InvertKeys(keys, rounds), rounds, Encrypt(keys, rounds, p)) == p
  {
    hide XorB, SubShift, InvSubShift, KeyAt, InvertKeys, Encrypt;
    DecryptingState(keys, rounds, p, rounds - 1);
    InvertedKey(keys, rounds, rounds);
    InvSubShiftBack(EncState(keys, p, 0));
    XorBLaws(p, KeyAt(keys, 0));
  }

  // ---- bytes ----

  function LeWord(s: seq<bv8>, p: nat): Word
    requires p + 4 <= |s|
  {
    Word(s[p], s[p + 1], s[p + 2], s[p + 3])
  }

  function BlockOf(s: seq<bv8>): Block
    requires |s| == 16
  {
    Block(LeWord(s, 0), LeWord(s, 4), LeWord(s, 8), LeWord(s, 12))
  }

  function WordBytes(w: Word): (r: seq<bv8>)
    ensures |r| == 4
  {
    [w.b0, w.b1, w.b2, w.b3]
  }

  function BlockBytes(b: Block): (r: seq<bv8>)
    ensures |r| == 16
  {
    WordBytes(b.w0) + WordBytes(b.w1) + WordBytes(b.w2) + WordBytes(b.w3)
  }

  lemma QuarterAt(b: Block, q: nat, k: nat)
    requires q < 4 && k < 4
    ensures BlockBytes(b)[4 * q + k] == WordBytes([b.w0, b.w1, b.w2, b.w3][q])[k]
  {
    hide WordBytes;
    var r0, r1, r2, r3 := WordBytes(b.w0), WordBytes(b.w1), WordBytes(b.w2), WordBytes(b.w3);
    var r := r0 + r1 + r2 + r3;
    assert r == (r0 + r1 + r2) + r3 && r0 + r1 + r2 == (r0 + r1) + r2;
    if q == 3 {
      assert r[12 + k] == r3[k];
    } else if q == 2 {
      assert r[8 + k] == (r0 + r1 + r2)[8 + k] == r2[k];
    } else if q == 1 {
      assert r[4 + k] == (r0 + r1 + r2)[4 + k] == (r0 + r1)[4 + k] == r1[k];
    }
  }

  lemma WordBack(b: Block, q: nat)
    requires q < 4
    ensures LeWord(BlockBytes(b), 4 * q) == [b.w0, b.w1, b.w2, b.w3][q]
  {
    hide BlockBytes;
    QuarterAt(b, q, 0);
    QuarterAt(b, q, 1);
    QuarterAt(b, q, 2);
    QuarterAt(b, q, 3);
  }

  lemma BlockBack(b: Block)
    ensures BlockOf(BlockBytes(b)) == b
  {
    hide BlockBytes, LeWord;
    WordBack(b, 0);
    WordBack(b, 1);
    WordBack(b, 2);
    WordBack(b, 3);
  }

  lemma BytesBack(s: seq<bv8>)
    requires |s| == 16
    ensures BlockBytes(BlockOf(s)) == s
  {
    assert WordBytes(LeWord(s, 0)) == s[0..4] && WordBytes(LeWord(s, 4)) == s[4..8];
    assert WordBytes(LeWord(s, 8)) == s[8..12] && WordBytes(LeWord(s, 12)) == s[12..16];
    hide WordBytes, LeWord;
    assert s == s[0..4] + s[4..8] + s[8..12] + s[12..16];
  }

  /** All whole blocks of a message. */
  function EncryptData(keys: seq<Word>, rounds: nat, s: seq<bv8>): (r: seq<bv8>)
    requires 1 <= rounds && 4 * rounds + 4 <= |keys| && |s| % 16 == 0
    ensures |r| == |s|
  {
    if s == [] then []
    else EncryptData(keys, rounds, s[..|s| - 16]) + BlockBytes(Encrypt(keys, rounds, BlockOf(s[|s| - 16..])))
  }

  function DecryptData(keys: seq<Word>, rounds: nat, s: seq<bv8>): (r: seq<bv8>)
    requires 1 <= rounds && 4 * rounds + 4 <= |keys| && |s| % 16 == 0
    ensures |r| == |s|
  {
    if s == [] then []
    else DecryptData(keys, rounds, s[..|s| - 16]) + BlockBytes(Decrypt(keys, rounds, BlockOf(s[|s| - 16..])))
  }

  /** The round trip for messages. */
  lemma {:induction false} DecryptEncryptData(keys: seq<Word>, rounds: nat, s: seq<bv8>)
    requires 1 <= rounds && 4 * rounds + 4 <= |keys| && |s| % 16 == 0
    ensures DecryptData(InvertKeys(keys, rounds), rounds, EncryptData(keys, rounds, s)) == s
  {
    hide Encrypt, Decrypt, InvertKeys, BlockBytes, BlockOf;
    if s != [] {
      var n := |s| - 16;
      var b := BlockOf(s[n..]);
      var e := EncryptData(keys, rounds, s);
      DecryptEncryptData(keys, rounds, s[..n]);
      assert e[..n] == EncryptData(keys, rounds, s[..n]);
      assert e[n..] == BlockBytes(Encrypt(keys, rounds, b));
      BlockBack(Encrypt(keys, rounds, b));
      BytesBack(s[n..]);
      DecryptEncrypt(keys, rounds, b);
      assert s[..n] + s[n..] == s;
    }
  }
}
