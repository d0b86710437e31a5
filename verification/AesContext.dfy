/** Nettle's AES contexts: key schedule, inversion of the subkeys, encryption and decryption of whole blocks. */
module AesContext {
  import Arith
  import opened AesTables
  import opened Aes
  import opened AesCipher

  // ---- the key schedule ----

  const RCON: seq<bv8> := [0x01, 0x02, 0x04, 0x08, 0x10, 0x20, 0x40, 0x80, 0x1b, 0x36]

  function SubWord(w: Word): Word { Word(SubByte(w.b0), SubByte(w.b1), SubByte(w.b2), SubByte(w.b3)) }

  /** Word i of the key expansion (section 5.2 of FIPS 197). */
  function KeyWord(key: seq<bv8>, nk: nat, i: nat): Word
    requires nk >= 1 && |key| >= 4 * nk && i < 11 * nk
  {
    if i < nk then LeWord(key, 4 * i)
    else
      var t := KeyWord(key, nk, i - 1);
      var t' :=
        if i % nk == 0 then
          assert 1 <= i / nk <= 10 by { GroupOf(i, nk); }
          XorW(SubWord(Rot24(t)), Word(RCON[i / nk - 1], 0, 0, 0))
        else if nk > 6 && i % nk == 4 then SubWord(t)
        else t;
      XorW(KeyWord(key, nk, i - nk), t')
  }

  lemma QuotientRange(i: nat, nk: nat, q: nat, r: nat)
    requires nk >= 1 && i == nk * q + r && r < nk <= i < 11 * nk
    ensures 1 <= q <= 10 && q * nk + r == i && (q - 1) * nk + nk == q * nk
  {
    assert q == 0 ==> nk * q == 0;
    if q > 10 {
      Arith.MulLe(11, nk, q, nk);
    }
  }

  lemma GroupOf(i: nat, nk: nat)
    requires nk >= 1 && nk <= i < 11 * nk
    ensures 1 <= i / nk <= 10
    ensures (i - 1) / nk == if i % nk == 0 then i / nk - 1 else i / nk
  {
    var q, r := i / nk, i % nk;
    QuotientRange(i, nk, q, r);
    if r == 0 {
      Arith.DivModUnique(i - 1, nk, q - 1, nk - 1);
    } else {
      Arith.DivModUnique(i - 1, nk, q, r - 1);
    }
  }

  function Schedule(key: seq<bv8>, nk: nat, nr: nat): (r: seq<Word>)
    requires nk >= 1 && |key| >= 4 * nk && 4 * nr + 4 <= 11 * nk
    ensures |r| == 4 * nr + 4
  {
    seq(4 * nr + 4, i requires 0 <= i < 4 * nr + 4 => KeyWord(key, nk, i))
  }

  ghost predicate Expanded(subkeys: seq<Word>, key: seq<bv8>, nk: nat, n: nat)
    requires nk >= 1 && |key| >= 4 * nk
  {
    n <= |subkeys| && n <= 11 * nk && forall i :: 0 <= i < n ==> subkeys[i] == KeyWord(key, nk, i)
  }

  lemma OneMore(s: seq<Word>, s': seq<Word>, key: seq<bv8>, nk: nat, i: nat)
    requires nk >= 1 && |key| >= 4 * nk && i < |s| && i < 11 * nk && |s'| == |s|
    requires Expanded(s, key, nk, i) && s'[i] == KeyWord(key, nk, i) && s'[..i] == s[..i]
    ensures Expanded(s', key, nk, i + 1)
  {
    hide KeyWord;
    forall m | 0 <= m < i
      ensures s'[m] == KeyWord(key, nk, m)
    {
      assert s'[m] == s'[..i][m] == s[m];
    }
  }

  /** _aes_set_key */
  method SetKeyWords(nr: nat, nk: nat, subkeys: array<Word>, key: seq<bv8>)
    requires nk >= 1 && nk <= subkeys.Length && 4 * nr + 4 <= subkeys.Length
    requires |key| >= 4 * nk && 4 * nr + 4 <= 11 * nk
    modifies subkeys
    ensures subkeys[..4 * nr + 4] == Schedule(key, nk, nr)
    ensures forall i :: 4 * nr + 4 <= i < subkeys.Length && nk <= i ==> subkeys[i] == old(subkeys[i])
  {
    hide KeyWord, XorW, SubWord, LeWord;
    var lastkey := 4 * (nr + 1);
    var i, rp := 0, 0;
    while i < nk
      invariant i <= nk
      invariant Expanded(subkeys[..], key, nk, i)
      invariant forall m :: i <= m < subkeys.Length ==> subkeys[m] == old(subkeys[m])
    {
      FirstWords(key, nk, i);
      ghost var s := subkeys[..];
      subkeys[i] := ReadLe(key, 4 * i);
      OneMore(s, subkeys[..], key, nk, i);
      i := i + 1;
    }
    i := nk;
    Arith.DivModUnique(nk - 1, nk, 0, nk - 1);
    while i < lastkey
      invariant nk <= i && (i <= lastkey || i == nk)
      invariant i < 11 * nk ==> rp == (i - 1) / nk
      invariant Expanded(subkeys[..], key, nk, i)
      invariant forall m :: i <= m < subkeys.Length ==> subkeys[m] == old(subkeys[m])
    {
      var t := subkeys[i - 1];
      GroupOf(i, nk);
      if i % nk == 0 {
        t := XorW(SubWord(Rot24(t)), Word(RCON[rp], 0, 0, 0));
        rp := rp + 1;
      } else if nk > 6 && i % nk == 4 {
        t := SubWord(t);
      }
      LaterWords(subkeys[..], key, nk, i, t);
      ghost var s := subkeys[..];
      subkeys[i] := XorW(subkeys[i - nk], t);
      OneMore(s, subkeys[..], key, nk, i);
      i := i + 1;
      if i < 11 * nk {
        GroupOf(i, nk);
      }
    }
  }

  method ReadLe(key: seq<bv8>, p: nat) returns (w: Word)
    requires p + 4 <= |key|
    ensures w == LeWord(key, p)
  {
    w := Word(key[p], key[p + 1], key[p + 2], key[p + 3]);
  }

  lemma FirstWords(key: seq<bv8>, nk: nat, i: nat)
    requires |key| >= 4 * nk && i < nk
    ensures KeyWord(key, nk, i) == LeWord(key, 4 * i)
  {
  }

  lemma LaterWords(subkeys: seq<Word>, key: seq<bv8>, nk: nat, i: nat, t: Word)
    requires nk >= 1 && |key| >= 4 * nk && nk <= i < 11 * nk && i < |subkeys|
    requires Expanded(subkeys, key, nk, i)
    requires 1 <= i / nk <= 10
    requires t == if i % nk == 0 then XorW(SubWord(Rot24(subkeys[i - 1])), Word(RCON[i / nk - 1], 0, 0, 0))
             else if nk > 6 && i % nk == 4 then SubWord(subkeys[i - 1]) else subkeys[i - 1]
    ensures KeyWord(key, nk, i) == XorW(subkeys[i - nk], t)
  {
    hide XorW, SubWord, LeWord;
  }

  // ---- inverting the subkeys ----

  /** MIX_COLUMN on mtable. */
  method MixColumn(key: Word) returns (nk: Word)
    ensures nk == InvMixCol(key)
  {
    hide XorW, InvMixByte, Bytes, MTABLE;
    KeyEntry(key.b0);
    KeyEntry(key.b1);
    KeyEntry(key.b2);
    KeyEntry(key.b3);
    WordTables();
    nk := Bytes(At(MTABLE, key.b0));
    var t := Bytes(At(MTABLE, key.b1));
    nk := XorW(nk, Rot8(t));
    t := Bytes(At(MTABLE, key.b2));
    nk := XorW(nk, Rot16(t));
    t := Bytes(At(MTABLE, key.b3));
    nk := XorW(nk, Rot24(t));
  }

  /** Where word m comes from when the order of the groups of four is reversed. */
  function From(rounds: nat, m: nat): (f: nat)
    requires m < 4 * rounds + 4
    ensures f < 4 * rounds + 4
  {
    4 * (rounds - m / 4) + m % 4
  }

  /** In the first i words and their counterparts at the end, and in k more at either place, the order is reversed. */
  ghost predicate Exchanged(s: seq<Word>, was: seq<Word>, rounds: nat, i: nat, k: nat)
    requires |s| == |was| && 4 * rounds + 4 <= |s|
  {
    var j := 4 * rounds - i;
    forall m {:trigger s[m]} :: 0 <= m < 4 * rounds + 4 ==>
      s[m] == if m < i + k || j <= m < j + k || j + 4 <= m then was[From(rounds, m)] else was[m]
  }

  lemma FromGroup(rounds: nat, i: nat, k: nat)
    requires i % 4 == 0 && k < 4 && i <= 4 * rounds
    ensures From(rounds, i + k) == 4 * rounds - i + k
  {
  }

  lemma Apart(rounds: nat, i: nat)
    requires i % 4 == 0 && i < 4 * rounds - i
    ensures i + 4 <= 4 * rounds - i
  {
    var q := i / 4;
    assert i == 4 * q;
  }

  lemma ExchangeOne(s: seq<Word>, s': seq<Word>, was: seq<Word>, rounds: nat, i: nat, k: nat)
    requires |s| == |was| && 4 * rounds + 4 <= |s| && i % 4 == 0 && i + 4 <= 4 * rounds - i && k < 4
    requires Exchanged(s, was, rounds, i, k)
    requires var j := 4 * rounds - i; s' == s[i + k := s[j + k]][j + k := s[i + k]]
    ensures Exchanged(s', was, rounds, i, k + 1)
  {
    hide Exchanged;
    FromGroup(rounds, i, k);
    FromGroup(rounds, 4 * rounds - i, k);
    ExchangePair(s, s', was, rounds, i, k);
  }

  lemma ExchangePair(s: seq<Word>, s': seq<Word>, was: seq<Word>, rounds: nat, i: nat, k: nat)
    requires |s| == |was| && 4 * rounds + 4 <= |s| && i + 4 <= 4 * rounds - i && k < 4
    requires Exchanged(s, was, rounds, i, k)
    requires From(rounds, i + k) == 4 * rounds - i + k && From(rounds, 4 * rounds - i + k) == i + k
    requires var j := 4 * rounds - i; s' == s[i + k := s[j + k]][j + k := s[i + k]]
    ensures Exchanged(s', was, rounds, i, k + 1)
  {
    hide From;
    var j := 4 * rounds - i;
    assert s[i + k] == was[i + k] && s[j + k] == was[j + k];
    forall m | 0 <= m < 4 * rounds + 4
      ensures s'[m] == if m < i + k + 1 || j <= m < j + k + 1 || j + 4 <= m then was[From(rounds, m)] else was[m]
    {
      if m != i + k && m != j + k {
        assert s'[m] == s[m];
      }
    }
  }

  lemma ExchangeGroup(s: seq<Word>, was: seq<Word>, rounds: nat, i: nat)
    requires |s| == |was| && 4 * rounds + 4 <= |s| && i % 4 == 0 && i < 4 * rounds - i
    requires Exchanged(s, was, rounds, i, 4)
    ensures Exchanged(s, was, rounds, i + 4, 0)
  {
    hide From;
  }

  lemma Meeting(rounds: nat, i: nat)
    requires i % 4 == 0 && i <= 4 * rounds && i >= 4 * rounds - i
    ensures i == 4 * rounds - i || i >= 4 * rounds - i + 4
  {
    var q := i / 4;
    assert i == 4 * q;
  }

  lemma ExchangedAt(s: seq<Word>, was: seq<Word>, rounds: nat, i: nat, m: nat)
    requires |s| == |was| && 4 * rounds + 4 <= |s| && i <= 4 * rounds
      && (i == 4 * rounds - i || i >= 4 * rounds - i + 4)
    requires Exchanged(s, was, rounds, i, 0) && m < 4 * rounds + 4
    requires i <= m < i + 4 ==> From(rounds, m) == 4 * rounds - i + (m - i)
    ensures s[m] == was[From(rounds, m)]
  {
    hide From;
    assert s[m] == if m < i || 4 * rounds - i + 4 <= m then was[From(rounds, m)] else was[m];
  }

  lemma ExchangedAll(s: seq<Word>, was: seq<Word>, rounds: nat, i: nat)
    requires |s| == |was| && 4 * rounds + 4 <= |s| && i % 4 == 0 && i <= 4 * rounds && i >= 4 * rounds - i
    requires Exchanged(s, was, rounds, i, 0)
    ensures Mixed(s, was, rounds, 4)
  {
    hide InvMixCol, From, Exchanged;
    Meeting(rounds, i);
    forall m | 0 <= m < 4 * rounds + 4
      ensures s[m] == was[From(rounds, m)]
    {
      if i <= m < i + 4 {
        FromGroup(rounds, i, m - i);
      }
      ExchangedAt(s, was, rounds, i, m);
    }
  }

  /** The groups are reversed, and the words from 4 up to i mixed. */
  ghost predicate Mixed(s: seq<Word>, was: seq<Word>, rounds: nat, i: nat)
    requires 4 * rounds + 4 <= |s| && 4 * rounds + 4 <= |was|
  {
    forall m {:trigger s[m]} :: 0 <= m < 4 * rounds + 4 ==>
      s[m] == if 4 <= m < i then InvMixCol(was[From(rounds, m)]) else was[From(rounds, m)]
  }

  /** The branch for dst == src. */
  method ReverseInPlace(rounds: nat, dst: array<Word>)
    requires 4 * rounds + 4 <= dst.Length
    modifies dst
    ensures Mixed(dst[..], old(dst[..]), rounds, 4)
    ensures dst[4 * rounds + 4..] == old(dst[4 * rounds + 4..])
  {
    hide Exchanged, Mixed, From;
    var i, j := 0, rounds * 4;
    ExchangedNone(dst[..], rounds);
    while i < j
      invariant i % 4 == 0 && i + j == 4 * rounds && i <= 4 * rounds
      invariant Exchanged(dst[..], old(dst[..]), rounds, i, 0)
      invariant dst[4 * rounds + 4..] == old(dst[4 * rounds + 4..])
    {
      var k := 0;
      Apart(rounds, i);
      while k < 4
        invariant k <= 4
        invariant Exchanged(dst[..], old(dst[..]), rounds, i, k)
        invariant dst[4 * rounds + 4..] == old(dst[4 * rounds + 4..])
      {
        ghost var s := dst[..];
        dst[i + k], dst[j + k] := dst[j + k], dst[i + k];
        ExchangeOne(s, dst[..], old(dst[..]), rounds, i, k);
        assert dst[4 * rounds + 4..] == s[4 * rounds + 4..];
        k := k + 1;
      }
      ExchangeGroup(dst[..], old(dst[..]), rounds, i);
      i := i + 4;
      j := j - 4;
    }
    ExchangedAll(dst[..], old(dst[..]), rounds, i);
  }

  lemma ExchangedNone(s: seq<Word>, rounds: nat)
    requires 4 * rounds + 4 <= |s|
    ensures Exchanged(s, s, rounds, 0, 0)
  {
  }

  ghost predicate Copied(s: seq<Word>, src: seq<Word>, rounds: nat, n: nat)
    requires 4 * rounds + 4 <= |s| && 4 * rounds + 4 <= |src|
  {
    forall m {:trigger s[m]} :: 0 <= m < n && m < 4 * rounds + 4 ==> s[m] == src[From(rounds, m)]
  }

  lemma CopyOne(s: seq<Word>, s': seq<Word>, src: seq<Word>, rounds: nat, i: nat, k: nat)
    requires 4 * rounds + 4 <= |s| && 4 * rounds + 4 <= |src| && i % 4 == 0 && i <= 4 * rounds && k < 4
    requires Copied(s, src, rounds, i + k) && s' == s[i + k := src[rounds * 4 - i + k]]
    ensures Copied(s', src, rounds, i + k + 1)
  {
    FromGroup(rounds, i, k);
    hide From;
  }

  lemma CopiedAll(s: seq<Word>, src: seq<Word>, rounds: nat)
    requires 4 * rounds + 4 <= |s| && 4 * rounds + 4 <= |src|
    ensures Copied(s, src, rounds, 0)
    ensures Copied(s, src, rounds, 4 * rounds + 4) ==> Mixed(s, src, rounds, 4)
  {
    hide From, InvMixCol;
  }

  /** The branch for dst != src. */
  method ReverseCopy(rounds: nat, dst: array<Word>, src: array<Word>)
    requires 4 * rounds + 4 <= dst.Length && 4 * rounds + 4 <= src.Length && dst != src
    modifies dst
    ensures Mixed(dst[..], src[..], rounds, 4)
    ensures dst[4 * rounds + 4..] == old(dst[4 * rounds + 4..])
  {
    hide Copied, Mixed, From;
    var i := 0;
    CopiedAll(dst[..], src[..], rounds);
    while i <= rounds * 4
      invariant i % 4 == 0 && i <= 4 * rounds + 4
      invariant Copied(dst[..], src[..], rounds, i)
      invariant dst[4 * rounds + 4..] == old(dst[4 * rounds + 4..])
    {
      var k := 0;
      while k < 4
        invariant k <= 4
        invariant Copied(dst[..], src[..], rounds, i + k)
        invariant dst[4 * rounds + 4..] == old(dst[4 * rounds + 4..])
      {
        ghost var s := dst[..];
        dst[i + k] := src[rounds * 4 - i + k];
        CopyOne(s, dst[..], src[..], rounds, i, k);
        assert dst[4 * rounds + 4..] == s[4 * rounds + 4..];
        k := k + 1;
      }
      i := i + 4;
    }
    CopiedAll(dst[..], src[..], rounds);
  }

  lemma MixOne(s: seq<Word>, s': seq<Word>, was: seq<Word>, rounds: nat, i: nat)
    requires 4 * rounds + 4 <= |s| && 4 * rounds + 4 <= |was| && 4 <= i < 4 * rounds
    requires Mixed(s, was, rounds, i) && s' == s[i := InvMixCol(s[i])]
    ensures Mixed(s', was, rounds, i + 1)
  {
    hide From, InvMixCol;
  }

  /** _nettle_aes_invert: one result for both branches. */
  method Invert(rounds: nat, dst: array<Word>, src: array<Word>)
    requires 4 * rounds + 4 <= dst.Length && 4 * rounds + 4 <= src.Length
    modifies dst
    ensures dst[..4 * rounds + 4] == InvertKeys(old(src[..]), rounds)
    ensures dst[4 * rounds + 4..] == old(dst[4 * rounds + 4..])
  {
    hide InvMixCol, Mixed;
    if src == dst {
      ReverseInPlace(rounds, dst);
    } else {
      ReverseCopy(rounds, dst, src);
    }
    var i := 4;
    while i < 4 * rounds
      invariant 4 <= i && (i <= 4 * rounds || i == 4)
      invariant Mixed(dst[..], old(src[..]), rounds, i)
      invariant dst[4 * rounds + 4..] == old(dst[4 * rounds + 4..])
    {
      ghost var s := dst[..];
      dst[i] := MixColumn(dst[i]);
      MixOne(s, dst[..], old(src[..]), rounds, i);
      assert dst[4 * rounds + 4..] == s[4 * rounds + 4..];
      i := i + 1;
    }
    MixedIsInverted(dst[..], old(src[..]), rounds, i);
  }

  lemma MixedIsInverted(s: seq<Word>, was: seq<Word>, rounds: nat, i: nat)
    requires 4 * rounds + 4 <= |s| && 4 * rounds + 4 <= |was|
    requires Mixed(s, was, rounds, i) && i == if rounds == 0 then 4 else 4 * rounds
    ensures s[..4 * rounds + 4] == InvertKeys(was, rounds)
  {
    hide InvMixCol;
    var r := InvertKeys(was, rounds);
    forall m | 0 <= m < 4 * rounds + 4
      ensures s[m] == r[m]
    {
      assert s[m] == if 4 <= m < i then InvMixCol(was[From(rounds, m)]) else was[From(rounds, m)];
    }
  }

  // ---- whole blocks ----

  /** The body of the loop over blocks in _nettle_aes_encrypt. */
  method EncryptBlock(rounds: nat, keys: seq<Word>, p: Block) returns (c: Block)
    requires 1 <= rounds && 4 * rounds + 4 <= |keys|
    ensures c == Encrypt(keys, rounds, p)
  {
    hide XorW, MixCol, Subbed, EncryptRound;
    var w0, w1, w2, w3 := XorW(p.w0, keys[0]), XorW(p.w1, keys[1]), XorW(p.w2, keys[2]), XorW(p.w3, keys[3]);
    var i := 1;
    while i < rounds
      invariant 1 <= i <= rounds
      invariant Block(w0, w1, w2, w3) == EncState(keys, p, i - 1)
    {
      var k0, k1, k2, k3 := keys[4 * i], keys[4 * i + 1], keys[4 * i + 2], keys[4 * i + 3];
      EncryptRoundIs(w0, w1, w2, w3, k0);
      EncryptRoundIs(w1, w2, w3, w0, k1);
      EncryptRoundIs(w2, w3, w0, w1, k2);
      EncryptRoundIs(w3, w0, w1, w2, k3);
      var t0 := EncryptRound(w0, w1, w2, w3, k0);
      var t1 := EncryptRound(w1, w2, w3, w0, k1);
      var t2 := EncryptRound(w2, w3, w0, w1, k2);
      var t3 := EncryptRound(w3, w0, w1, w2, k3);
      w0, w1, w2, w3 := t0, t1, t2, t3;
      i := i + 1;
    }
    c := Block(XorW(Subbed(w0, w1, w2, w3), keys[4 * i]), XorW(Subbed(w1, w2, w3, w0), keys[4 * i + 1]),
               XorW(Subbed(w2, w3, w0, w1), keys[4 * i + 2]), XorW(Subbed(w3, w0, w1, w2), keys[4 * i + 3]));
  }

  /** The body of the loop over blocks in _nettle_aes_decrypt. */
  method DecryptBlock(rounds: nat, keys: seq<Word>, p: Block) returns (c: Block)
    requires 1 <= rounds && 4 * rounds + 4 <= |keys|
    ensures c == Decrypt(keys, rounds, p)
  {
    hide XorW, InvMixCol, InvSubbed, DecryptRound;
    var w0, w1, w2, w3 := XorW(p.w0, keys[0]), XorW(p.w1, keys[1]), XorW(p.w2, keys[2]), XorW(p.w3, keys[3]);
    var i := 1;
    while i < rounds
      invariant 1 <= i <= rounds
      invariant Block(w0, w1, w2, w3) == DecState(keys, p, i - 1)
    {
      var k0, k1, k2, k3 := keys[4 * i], keys[4 * i + 1], keys[4 * i + 2], keys[4 * i + 3];
      DecryptRoundIs(w0, w3, w2, w1, k0);
      DecryptRoundIs(w1, w0, w3, w2, k1);
      DecryptRoundIs(w2, w1, w0, w3, k2);
      DecryptRoundIs(w3, w2, w1, w0, k3);
      var t0 := DecryptRound(w0, w3, w2, w1, k0);
      var t1 := DecryptRound(w1, w0, w3, w2, k1);
      var t2 := DecryptRound(w2, w1, w0, w3, k2);
      var t3 := DecryptRound(w3, w2, w1, w0, k3);
      w0, w1, w2, w3 := t0, t1, t2, t3;
      i := i + 1;
    }
    c := Block(XorW(InvSubbed(w0, w3, w2, w1), keys[4 * i]), XorW(InvSubbed(w1, w0, w3, w2), keys[4 * i + 1]),
               XorW(InvSubbed(w2, w1, w0, w3), keys[4 * i + 2]), XorW(InvSubbed(w3, w2, w1, w0), keys[4 * i + 3]));
  }

  method ReadBlock(src: array<bv8>, p: nat) returns (b: Block)
    requires p + 16 <= src.Length
    ensures b == BlockOf(src[..][p..p + 16])
  {
    b := Block(Word(src[p], src[p + 1], src[p + 2], src[p + 3]), Word(src[p + 4], src[p + 5], src[p + 6], src[p + 7]),
               Word(src[p + 8], src[p + 9], src[p + 10], src[p + 11]),
               Word(src[p + 12], src[p + 13], src[p + 14], src[p + 15]));
  }

  /** s with w written at position p. */
  function Splice(s: seq<bv8>, p: nat, w: seq<bv8>): (r: seq<bv8>)
    requires p + |w| <= |s|
    ensures |r| == |s|
  {
    s[..p] + w + s[p + |w|..]
  }

  lemma SpliceTwice(s: seq<bv8>, p: nat, u: seq<bv8>, v: seq<bv8>)
    requires p + |u| + |v| <= |s|
    ensures Splice(Splice(s, p, u), p + |u|, v) == Splice(s, p, u + v)
  {
    var t := Splice(s, p, u);
    assert t[..p + |u|] == s[..p] + u;
    assert t[p + |u| + |v|..] == s[p + |u| + |v|..];
  }

  /** A block written after the part already done. */
  lemma SpliceNext(e: seq<bv8>, was: seq<bv8>, p: nat, w: seq<bv8>)
    requires |e| == p && p + |w| <= |was|
    ensures Splice(e + was[p..], p, w) == (e + w) + was[p + |w|..]
    ensures (e + was[p..])[p..p + |w|] == was[p..p + |w|]
  {
    var s := e + was[p..];
    assert s[..p] == e;
    assert s[p + |w|..] == was[p + |w|..];
  }

  /** LE_WRITE_UINT32 */
  method WriteLe(dst: array<bv8>, p: nat, w: Word)
    requires p + 4 <= dst.Length
    modifies dst
    ensures dst[..] == Splice(old(dst[..]), p, WordBytes(w))
  {
    dst[p + 3] := w.b3;
    dst[p + 2] := w.b2;
    dst[p + 1] := w.b1;
    dst[p] := w.b0;
  }

  /** Where whole blocks are left there is room for one. */
  lemma NextBlock(p: nat, length: nat)
    requires p % 16 == 0 && length % 16 == 0 && p < length
    ensures p + 16 <= length && (p + 16) % 16 == 0
  {
  }

  method WriteBlock(dst: array<bv8>, p: nat, b: Block)
    requires p + 16 <= dst.Length
    modifies dst
    ensures dst[..] == Splice(old(dst[..]), p, BlockBytes(b))
  {
    hide WordBytes, Splice;
    ghost var s := dst[..];
    ghost var u0, u1, u2, u3 := WordBytes(b.w0), WordBytes(b.w1), WordBytes(b.w2), WordBytes(b.w3);
    WriteLe(dst, p, b.w0);
    WriteLe(dst, p + 4, b.w1);
    SpliceTwice(s, p, u0, u1);
    WriteLe(dst, p + 8, b.w2);
    SpliceTwice(s, p, u0 + u1, u2);
    WriteLe(dst, p + 12, b.w3);
    SpliceTwice(s, p, u0 + u1 + u2, u3);
  }

  /** The blocks done so far stand in front of what the output held before. */
  ghost predicate Processed(done: seq<bv8>, was: seq<bv8>, now: seq<bv8>) {
    |done| % 16 == 0 && |done| <= |was| && now == done + was[|done|..]
  }

  lemma ProcessNone(was: seq<bv8>)
    ensures Processed([], was, was)
  {
    assert [] + was[0..] == was;
  }

  lemma ProcessAll(done: seq<bv8>, was: seq<bv8>, now: seq<bv8>)
    requires Processed(done, was, now)
    ensures |now| == |was| && |done| <= |was| && now == done + was[|done|..]
  {
  }

  lemma ProcessNext(done: seq<bv8>, was: seq<bv8>, now: seq<bv8>, block: seq<bv8>)
    requires Processed(done, was, now) && |block| == 16 && |done| + 16 <= |was|
    ensures |now| == |was| && now[|done|..|done| + 16] == was[|done|..|done| + 16]
    ensures Processed(done + block, was, Splice(now, |done|, block))
  {
    hide Splice;
    SpliceNext(done, was, |done|, block);
  }

  lemma EncryptEmpty(keys: seq<Word>, rounds: nat)
    requires 1 <= rounds && 4 * rounds + 4 <= |keys|
    ensures EncryptData(keys, rounds, []) == []
  {
  }

  lemma EncryptNext(keys: seq<Word>, rounds: nat, s: seq<bv8>, p: nat)
    requires 1 <= rounds && 4 * rounds + 4 <= |keys| && p % 16 == 0 && p + 16 <= |s|
    ensures EncryptData(keys, rounds, s[..p + 16])
      == EncryptData(keys, rounds, s[..p]) + BlockBytes(Encrypt(keys, rounds, BlockOf(s[p..p + 16])))
  {
    hide Encrypt, BlockBytes, BlockOf;
    var t := s[..p + 16];
    assert t[..|t| - 16] == s[..p] && t[|t| - 16..] == s[p..p + 16];
  }

  lemma DecryptEmpty(keys: seq<Word>, rounds: nat)
    requires 1 <= rounds && 4 * rounds + 4 <= |keys|
    ensures DecryptData(keys, rounds, []) == []
  {
  }

  lemma DecryptNext(keys: seq<Word>, rounds: nat, s: seq<bv8>, p: nat)
    requires 1 <= rounds && 4 * rounds + 4 <= |keys| && p % 16 == 0 && p + 16 <= |s|
    ensures DecryptData(keys, rounds, s[..p + 16])
      == DecryptData(keys, rounds, s[..p]) + BlockBytes(Decrypt(keys, rounds, BlockOf(s[p..p + 16])))
  {
    hide Decrypt, BlockBytes, BlockOf;
    var t := s[..p + 16];
    assert t[..|t| - 16] == s[..p] && t[|t| - 16..] == s[p..p + 16];
  }

  /** _nettle_aes_encrypt; dst may be src. */
  method EncryptBlocks(rounds: nat, keys: seq<Word>, length: nat, dst: array<bv8>, src: array<bv8>)
    requires 1 <= rounds && 4 * rounds + 4 <= |keys|
    requires length % 16 == 0 && length <= dst.Length && length <= src.Length
    modifies dst
    ensures dst[..] == EncryptData(keys, rounds, old(src[..length])) + old(dst[length..])
  {
    hide Encrypt, EncryptData, BlockOf, BlockBytes, Splice, Processed;
    var p := 0;
    ghost var was, input := dst[..], src[..];
    assert input[..length] == src[..length] && was[length..] == dst[length..];
    assert input[..0] == [];
    EncryptEmpty(keys, rounds);
    ProcessNone(was);
    while p < length
      invariant p % 16 == 0 && p <= length
      invariant Processed(EncryptData(keys, rounds, input[..p]), was, dst[..])
      invariant src != dst ==> src[..] == input
    {
      NextBlock(p, length);
      ghost var done := EncryptData(keys, rounds, input[..p]);
      EncryptNext(keys, rounds, input, p);
      ProcessNext(done, was, dst[..], BlockBytes(Encrypt(keys, rounds, BlockOf(input[p..p + 16]))));
      assert |done| == p && src[..][p..p + 16] == input[p..p + 16];
      var b := ReadBlock(src, p);
      var c := EncryptBlock(rounds, keys, b);
      WriteBlock(dst, p, c);
      p := p + 16;
    }
    ProcessAll(EncryptData(keys, rounds, input[..p]), was, dst[..]);
    assert p == length;
  }

  /** _nettle_aes_decrypt; dst may be src. */
  method DecryptBlocks(rounds: nat, keys: seq<Word>, length: nat, dst: array<bv8>, src: array<bv8>)
    requires 1 <= rounds && 4 * rounds + 4 <= |keys|
    requires length % 16 == 0 && length <= dst.Length && length <= src.Length
    modifies dst
    ensures dst[..] == DecryptData(keys, rounds, old(src[..length])) + old(dst[length..])
  {
    hide Decrypt, DecryptData, BlockOf, BlockBytes, Splice, Processed;
    var p := 0;
    ghost var was, input := dst[..], src[..];
    assert input[..length] == src[..length] && was[length..] == dst[length..];
    assert input[..0] == [];
    DecryptEmpty(keys, rounds);
    ProcessNone(was);
    while p < length
      invariant p % 16 == 0 && p <= length
      invariant Processed(DecryptData(keys, rounds, input[..p]), was, dst[..])
      invariant src != dst ==> src[..] == input
    {
      NextBlock(p, length);
      ghost var done := DecryptData(keys, rounds, input[..p]);
      DecryptNext(keys, rounds, input, p);
      ProcessNext(done, was, dst[..], BlockBytes(Decrypt(keys, rounds, BlockOf(input[p..p + 16]))));
      assert |done| == p && src[..][p..p + 16] == input[p..p + 16];
      var b := ReadBlock(src, p);
      var c := DecryptBlock(rounds, keys, b);
      WriteBlock(dst, p, c);
      p := p + 16;
    }
    ProcessAll(DecryptData(keys, rounds, input[..p]), was, dst[..]);
    assert p == length;
  }

  // ---- contexts ----

  /** The words of the key that are used: key sizes in between are truncated to the next of 16, 24 and 32 bytes. */
  function KeyWords(keysize: nat): (nk: nat)
    requires 16 <= keysize <= 32
    ensures nk in {4, 6, 8} && 4 * nk <= keysize
    ensures forall m :: m in {4, 6, 8} && 4 * m <= keysize ==> m <= nk
  {
    if keysize == 32 then 8 else if keysize >= 24 then 6 else 4
  }

  class AesCtx {
    var rounds: nat
    const keys: array<Word>

    constructor ()
      ensures fresh(this) && fresh(keys) && keys.Length == 60
    {
      keys := new Word[60];
    }

    /** The context holds the subkeys that encrypt with this key. */
    ghost predicate Encrypts(key: seq<bv8>, keysize: nat)
      requires 16 <= keysize <= 32 && keysize <= |key|
      reads this, keys
    {
      var nk := KeyWords(keysize);
      keys.Length == 60 && rounds == nk + 6 && keys[..4 * rounds + 4] == Schedule(key, nk, rounds)
    }

    /** The context holds the subkeys that decrypt with this key. */
    ghost predicate Decrypts(key: seq<bv8>, keysize: nat)
      requires 16 <= keysize <= 32 && keysize <= |key|
      reads this, keys
    {
      var nk := KeyWords(keysize);
      keys.Length == 60 && rounds == nk + 6 && keys[..4 * rounds + 4] == InvertKeys(Schedule(key, nk, rounds), rounds)
    }

    /** aes_set_encrypt_key */
    method SetEncryptKey(keysize: nat, key: seq<bv8>)
      requires 16 <= keysize <= 32 && keysize <= |key| && keys.Length == 60
      modifies this`rounds, keys
      ensures Encrypts(key, keysize)
    {
      hide Schedule;
      var nk, nr;
      if keysize == 32 {
        nk := 8;
        nr := 14;
      } else if keysize >= 24 {
        nk := 6;
        nr := 12;
      } else {
        nk := 4;
        nr := 10;
      }
      rounds := nr;
      SetKeyWords(nr, nk, keys, key);
    }

    /** aes_invert_key, called on dst; src may be dst. */
    method InvertKey(src: AesCtx)
      requires keys.Length == 60 && 4 * src.rounds + 4 <= 60 && src.keys.Length == 60
      requires keys == src.keys ==> src == this
      modifies this`rounds, keys
      ensures rounds == old(src.rounds)
      ensures keys[..4 * rounds + 4] == InvertKeys(old(src.keys[..]), old(src.rounds))
    {
      hide InvertKeys;
      Invert(src.rounds, keys, src.keys);
      rounds := src.rounds;
    }

    /** aes_set_decrypt_key */
    method SetDecryptKey(keysize: nat, key: seq<bv8>)
      requires 16 <= keysize <= 32 && keysize <= |key| && keys.Length == 60
      modifies this`rounds, keys
      ensures Decrypts(key, keysize)
    {
      hide Schedule, InvertKeys;
      SetEncryptKey(keysize, key);
      ghost var ks, r := keys[..], rounds;
      InvertPrefix(ks, r);
      assert ks[..4 * r + 4] == Schedule(key, KeyWords(keysize), r);
      InvertKey(this);
      assert rounds == r && keys[..4 * r + 4] == InvertKeys(ks, r);
    }

    /** aes_encrypt */
    method Encrypt(length: nat, dst: array<bv8>, src: array<bv8>)
      requires 1 <= rounds && 4 * rounds + 4 <= keys.Length
      requires length % 16 == 0 && length <= dst.Length && length <= src.Length
      modifies dst
      ensures dst[..] == EncryptData(old(keys[..]), old(rounds), old(src[..length])) + old(dst[length..])
    {
      EncryptBlocks(rounds, keys[..], length, dst, src);
    }

    /** aes_decrypt */
    method Decrypt(length: nat, dst: array<bv8>, src: array<bv8>)
      requires 1 <= rounds && 4 * rounds + 4 <= keys.Length
      requires length % 16 == 0 && length <= dst.Length && length <= src.Length
      modifies dst
      ensures dst[..] == DecryptData(old(keys[..]), old(rounds), old(src[..length])) + old(dst[length..])
    {
      DecryptBlocks(rounds, keys[..], length, dst, src);
    }
  }

  lemma InvertPrefix(keys: seq<Word>, rounds: nat)
    requires 4 * rounds + 4 <= |keys|
    ensures InvertKeys(keys[..4 * rounds + 4], rounds) == InvertKeys(keys, rounds)
  {
    hide InvMixCol;
  }

  /** Only the subkeys of the rounds matter. */
  lemma {:induction false} StatePrefix(keys: seq<Word>, b: Block, r: nat)
    requires 4 * r + 4 <= |keys|
    ensures EncState(keys[..4 * r + 4], b, r) == EncState(keys, b, r)
    ensures DecState(keys[..4 * r + 4], b, r) == DecState(keys, b, r)
    decreases r
  {
    hide XorB, MixB, InvMixB, SubShift, InvSubShift;
    if r > 0 {
      StatePrefix(keys, b, r - 1);
      StatePrefix(keys[..4 * r + 4], b, r - 1);
      assert keys[..4 * r + 4][..4 * r] == keys[..4 * r];
    }
  }

  /** The calls of benchmark_body: what is encrypted with a key is restored by the context made for decryption. */
  method RoundTrip(keysize: nat, key: seq<bv8>, length: nat, plaintext: array<bv8>, encrypted: array<bv8>,
                   decrypted: array<bv8>)
    requires 16 <= keysize <= 32 && keysize <= |key| && length % 16 == 0
    requires length == plaintext.Length == encrypted.Length == decrypted.Length
    requires plaintext != encrypted && plaintext != decrypted
    modifies encrypted, decrypted
    ensures decrypted[..] == plaintext[..]
  {
    hide EncryptData, DecryptData, Schedule, InvertKeys;
    var encctx := new AesCtx();
    encctx.SetEncryptKey(keysize, key);
    encctx.Encrypt(length, encrypted, plaintext);
    ghost var rounds := encctx.rounds;
    ghost var schedule := encctx.keys[..4 * rounds + 4];
    DataPrefix(encctx.keys[..], rounds, plaintext[..length]);
    var decctx := new AesCtx();
    decctx.SetDecryptKey(keysize, key);
    DataPrefix(decctx.keys[..], rounds, encrypted[..length]);
    DecryptEncryptData(schedule, rounds, plaintext[..length]);
    decctx.Decrypt(length, decrypted, encrypted);
  }

  lemma {:induction false} DataPrefix(keys: seq<Word>, rounds: nat, s: seq<bv8>)
    requires 1 <= rounds && 4 * rounds + 4 <= |keys| && |s| % 16 == 0
    ensures EncryptData(keys[..4 * rounds + 4], rounds, s) == EncryptData(keys, rounds, s)
    ensures DecryptData(keys[..4 * rounds + 4], rounds, s) == DecryptData(keys, rounds, s)
  {
    hide BlockOf, BlockBytes, XorB, SubShift, InvSubShift, EncState, DecState;
    if s != [] {
      DataPrefix(keys, rounds, s[..|s| - 16]);
      var b, k := BlockOf(s[|s| - 16..]), keys[..4 * rounds + 4];
      StatePrefix(keys, b, rounds - 1);
      StatePrefix(k, b, rounds - 1);
      assert k[..4 * rounds] == keys[..4 * rounds];
    }
  }
}
