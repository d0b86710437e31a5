/** The steps of a round and the key expansion as FIPS 197 writes them, byte by byte and group by group. */
module AesStandard {
  import opened Gf256
  import opened AesTables
  import opened AesField
  import opened Aes
  import opened AesCipher
  import opened AesContext

  // ---- SubBytes and ShiftRows ----

  function ByteIn(w: Word, r: nat): bv8
    requires r < 4
  {
    if r == 0 then w.b0 else if r == 1 then w.b1 else if r == 2 then w.b2 else w.b3
  }

  function WordIn(x: Block, c: nat): Word
    requires c < 4
  {
    if c == 0 then x.w0 else if c == 1 then x.w1 else if c == 2 then x.w2 else x.w3
  }

  lemma ByteOfBlock(x: Block, r: nat, c: nat)
    requires r < 4 && c < 4
    ensures BlockBytes(x)[4 * c + r] == ByteIn(WordIn(x, c), r)
  {
    hide BlockBytes;
    QuarterAt(x, c, r);
  }

  lemma BlockOfByte(s: seq<bv8>, r: nat, c: nat)
    requires |s| == 16 && r < 4 && c < 4
    ensures ByteIn(WordIn(BlockOf(s), c), r) == s[4 * c + r]
  {
  }

  lemma SubShiftByte(x: Block, r: nat, c: nat)
    requires r < 4 && c < 4
    ensures ByteIn(WordIn(SubShift(x), c), r) == SubByte(ByteIn(WordIn(x, (c + r) % 4), r))
    ensures ByteIn(WordIn(InvSubShift(x), (c + r) % 4), r) == InvSubByte(ByteIn(WordIn(x, c), r))
  {
    hide SubByte, InvSubByte;
    assert c == 0 || c == 1 || c == 2 || c == 3;
    assert r == 0 || r == 1 || r == 2 || r == 3;
  }

  /** Byte r of column c comes from the column r places further on, through the S-box (sections 5.1.1 and 5.1.2). */
  lemma ShiftRows(s: seq<bv8>, r: nat, c: nat)
    requires |s| == 16 && r < 4 && c < 4
    ensures BlockBytes(SubShift(BlockOf(s)))[4 * c + r] == SubByte(s[4 * ((c + r) % 4) + r])
  {
    hide SubShift, SubByte, BlockOf, BlockBytes, ByteIn, WordIn;
    ByteOfBlock(SubShift(BlockOf(s)), r, c);
    SubShiftByte(BlockOf(s), r, c);
    BlockOfByte(s, r, (c + r) % 4);
  }

  /** The inverse takes it back there (sections 5.3.1 and 5.3.2). */
  lemma InvShiftRows(s: seq<bv8>, r: nat, c: nat)
    requires |s| == 16 && r < 4 && c < 4
    ensures BlockBytes(InvSubShift(BlockOf(s)))[4 * ((c + r) % 4) + r] == InvSubByte(s[4 * c + r])
  {
    hide InvSubShift, InvSubByte, BlockOf, BlockBytes, ByteIn, WordIn;
    ByteOfBlock(InvSubShift(BlockOf(s)), r, (c + r) % 4);
    SubShiftByte(BlockOf(s), r, c);
    BlockOfByte(s, r, c);
  }

  // ---- MixColumns ----

  function Sum4(a: bv8, b: bv8, c: bv8, d: bv8): bv8 { Add(Add(Add(a, b), c), d) }

  /** The products of a column with 2, 3, 1 and 1 in turn (section 5.1.3). */
  lemma MixColumn(w: Word)
    ensures
      MixCol(w) == Word(
        Sum4(Product(w.b0, 2), Product(w.b1, 3), w.b2, w.b3), Sum4(w.b0, Product(w.b1, 2), Product(w.b2, 3), w.b3),
        Sum4(w.b0, w.b1, Product(w.b2, 2), Product(w.b3, 3)), Sum4(Product(w.b0, 3), w.b1, w.b2, Product(w.b3, 2)))
  {
    hide Product, MixByte, Add;
    MixByProducts(w.b0);
    MixByProducts(w.b1);
    MixByProducts(w.b2);
    MixByProducts(w.b3);
    ProductOne(w.b0);
    ProductOne(w.b1);
    ProductOne(w.b2);
    ProductOne(w.b3);
  }

  // ---- the key expansion ----

  /** The round constants are the powers of x. */
  lemma RoundConstants(i: nat)
    requires i < 9
    ensures |RCON| == 10 && RCON[0] == 1 && RCON[i + 1] == Double(RCON[i])
  {
    assert i == 0 || i == 1 || i == 2 || i == 3 || i == 4 || i == 5 || i == 6 || i == 7 || i == 8;
  }

  /** A group of nk words of the expanded key, or the beginning of one, after the group before. */
  ghost predicate NextGroup(nk: nat, c: bv8, p: seq<Word>, q: seq<Word>)
    requires |p| == nk >= 1 && 1 <= |q| <= nk
  {
    && q[0] == XorW(p[0], XorW(SubWord(Rot24(p[nk - 1])), Word(c, 0, 0, 0)))
    && forall j :: 1 <= j < |q| ==> q[j] == XorW(p[j], if nk > 6 && j == 4 then SubWord(q[j - 1]) else q[j - 1])
  }

  lemma WordInGroup(nk: nat, g: nat, n: nat, j: nat)
    requires 1 <= nk && n == nk * g && j < nk
    ensures (n + j) / nk == g && (n + j) % nk == j
  {
    Arith.DivModUnique(n + j, nk, g, j);
  }

  /** The expanded key consists of such groups (section 5.2): group g follows from the group before. */
  lemma {:induction false} GroupExpands(key: seq<bv8>, nk: nat, g: nat, n: nat, p: seq<Word>, q: seq<Word>, j: nat)
    requires 1 <= nk && |key| >= 4 * nk && 1 <= g <= 10 && |p| == nk && 1 <= |q| <= nk && j < |q| && |RCON| == 10
    requires n == nk * g && nk <= n && n + |q| <= 11 * nk && NextGroup(nk, RCON[g - 1], p, q)
    requires forall m: nat :: m < nk ==> KeyWord(key, nk, n - nk + m) == p[m]
    ensures KeyWord(key, nk, n + j) == q[j]
    decreases j
  {
    hide XorW, SubWord, RCON;
    WordInGroup(nk, g, n, j);
    assert KeyWord(key, nk, n - nk + j) == p[j];
    if j == 0 {
      assert KeyWord(key, nk, n - nk + (nk - 1)) == p[nk - 1];
    } else {
      GroupExpands(key, nk, g, n, p, q, j - 1);
    }
  }

  // ---- messages of several blocks ----

  /** Every block is enciphered and deciphered by itself, in its place. */
  lemma {:induction false} BlockByBlock(keys: seq<Word>, rounds: nat, s: seq<bv8>, n: nat)
    requires 1 <= rounds && 4 * rounds + 4 <= |keys| && |s| % 16 == 0 && 16 * n + 16 <= |s|
    ensures EncryptData(keys, rounds, s)[16 * n..16 * n + 16]
      == BlockBytes(AesCipher.Encrypt(keys, rounds, BlockOf(s[16 * n..16 * n + 16])))
    ensures DecryptData(keys, rounds, s)[16 * n..16 * n + 16]
      == BlockBytes(AesCipher.Decrypt(keys, rounds, BlockOf(s[16 * n..16 * n + 16])))
    decreases |s|
  {
    hide AesCipher.Encrypt, AesCipher.Decrypt, BlockOf, BlockBytes;
    var m := |s| - 16;
    if 16 * n < m {
      BlockByBlock(keys, rounds, s[..m], n);
      assert s[..m][16 * n..16 * n + 16] == s[16 * n..16 * n + 16];
    } else {
      assert s[m..] == s[16 * n..16 * n + 16];
    }
  }
}
