/** HACL's one-shot SHA-256 with fresh locals in every call. */
module HaclSha256 {
  import opened Arith
  import opened Sha256

  // ---- the registers as an array ----

  ghost predicate Holds(h: seq<bv32>, r: Regs) {
    && |h| == 8 && h[0] == r.a && h[1] == r.b && h[2] == r.c && h[3] == r.d
    && h[4] == r.e && h[5] == r.f && h[6] == r.g && h[7] == r.h
  }

  lemma HoldsRound(m: seq<bv32>, r: Regs, i: nat, h: seq<bv32>)
    requires |m| == 16 && i < 64 && Holds(h, Rounds(m, r, i))
    ensures
      var t1 := Sum5(h[7], BigSigma1(h[4]), Choice(h[4], h[5], h[6]), K(i), Schedule(m, i));
      var t2 := Plus(BigSigma0(h[0]), Majority(h[0], h[1], h[2]));
      Rounds(m, r, i + 1) == Regs(Plus(t1, t2), h[0], h[1], h[2], Plus(h[3], t1), h[4], h[5], h[6])
  {
    hide K, BigSigma0, BigSigma1, Choice, Majority, Plus, Sum5, Schedule;
  }

  /** Adding the registers word by word is the last step of the compression. */
  lemma HoldsSum(s: seq<bv32>, h: seq<bv32>, r: Regs)
    requires |s| == 8 && Holds(h, r)
    ensures forall i :: 0 <= i < 8 ==> AddTo(s, r)[i] == Plus(s[i], h[i])
  {
    hide Plus;
  }

  /** One more word of the schedule. */
  method ScheduleWord(block: array<bv8>, off: nat, i: nat, computedWs: array<bv32>, ghost b: seq<bv8>)
    requires off + 64 <= block.Length && b == block[off..off + 64] && i < 64 == computedWs.Length
    requires forall j :: 0 <= j < i ==> computedWs[j] == Schedule(Words(b), j)
    modifies computedWs
    ensures forall j :: 0 <= j <= i ==> computedWs[j] == Schedule(Words(b), j)
  {
    hide SmallSigma0, SmallSigma1, Sum4, Word;
    if i < 16 {
      var p := off + i * 4;
      ghost var q := i * 4;
      PartOfPart(block[..], off, off + 64, q, q + 4);
      SameWord(b, q, block[p..p + 4]);
      var u := Word(block[p..p + 4], 0);
      computedWs[i] := u;
    } else {
      var t16 := computedWs[i - 16];
      var t15 := computedWs[i - 15];
      var t7 := computedWs[i - 7];
      var t2 := computedWs[i - 2];
      var s1 := SmallSigma1(t2);
      var s0 := SmallSigma0(t15);
      var w := Sum4(s1, t7, s0, t16);
      computedWs[i] := w;
    }
  }

  /** One round, shifting the registers along the array. */
  method ShiftingRound(hash1: array<bv32>, computedWs: array<bv32>, i: nat, ghost m: seq<bv32>, ghost r: Regs)
    requires hash1.Length == 8 && i < 64 == computedWs.Length && |m| == 16 && hash1 != computedWs
    requires computedWs[i] == Schedule(m, i) && Holds(hash1[..], Rounds(m, r, i))
    modifies hash1
    ensures Holds(hash1[..], Rounds(m, r, i + 1))
  {
    hide K, BigSigma0, BigSigma1, Choice, Majority, Plus, Sum5, Schedule, Rounds;
    HoldsRound(m, r, i, hash1[..]);
    var a0, b0, c0, d0 := hash1[0], hash1[1], hash1[2], hash1[3];
    var e0, f0, g0, h02 := hash1[4], hash1[5], hash1[6], hash1[7];
    var w := computedWs[i];
    var t1 := Sum5(h02, BigSigma1(e0), Choice(e0, f0, g0), K(i), w);
    var t2 := Plus(BigSigma0(a0), Majority(a0, b0, c0));
    hash1[0] := Plus(t1, t2);
    hash1[1] := a0;
    hash1[2] := b0;
    hash1[3] := c0;
    hash1[4] := Plus(d0, t1);
    hash1[5] := e0;
    hash1[6] := f0;
    hash1[7] := g0;
  }

  /** update_256 */
  method Update256(hash: array<bv32>, block: array<bv8>, off: nat)
    requires hash.Length == 8 && off + 64 <= block.Length
    modifies hash
    ensures hash[..] == Compress(old(hash[..]), block[off..off + 64])
  {
    hide Words, Schedule, Rounds, Plus, Holds, AddTo;
    ghost var s, b := hash[..], block[off..off + 64];
    ghost var m, r := Words(b), Load(hash[..]);
    var hash1 := new bv32[8](_ => 0);
    var computedWs := new bv32[64](_ => 0);
    var i := 0;
    while i < 64
      invariant 0 <= i <= 64 && block[off..off + 64] == b && hash[..] == s
      invariant forall j :: 0 <= j < i ==> computedWs[j] == Schedule(m, j)
    {
      ScheduleWord(block, off, i, computedWs, b);
      i := i + 1;
    }
    forall k | 0 <= k < 8 { hash1[k] := hash[k]; }
    HoldsStart(s, hash1[..], m);
    i := 0;
    while i < 64
      invariant 0 <= i <= 64 && hash[..] == s && Holds(hash1[..], Rounds(m, r, i))
      invariant forall j :: 0 <= j < 64 ==> computedWs[j] == Schedule(m, j)
    {
      ShiftingRound(hash1, computedWs, i, m, r);
      i := i + 1;
    }
    AddWords(hash, hash1, Rounds(m, r, 64));
    assert block[off..off + 64] == b;
  }

  lemma HoldsStart(s: seq<bv32>, h: seq<bv32>, m: seq<bv32>)
    requires |s| == 8 && h == s && |m| == 16
    ensures Holds(h, Rounds(m, Load(s), 0))
  {
  }

  method AddWords(hash: array<bv32>, hash1: array<bv32>, ghost r: Regs)
    requires hash.Length == 8 && hash1.Length == 8 && hash != hash1 && Holds(hash1[..], r)
    modifies hash
    ensures hash[..] == AddTo(old(hash[..]), r)
  {
    hide Plus, Holds, AddTo;
    ghost var s := hash[..];
    HoldsSum(s, hash1[..], r);
    var i := 0;
    while i < 8
      invariant 0 <= i <= 8 && hash1[..] == old(hash1[..])
      invariant forall k :: 0 <= k < i ==> hash[k] == Plus(s[k], hash1[k])
      invariant forall k :: i <= k < 8 ==> hash[k] == s[k]
    {
      var xi := hash[i];
      var yi := hash1[i];
      hash[i] := Plus(xi, yi);
      i := i + 1;
    }
    assert hash[..] == AddTo(s, r);
  }

  /** update_multi_256 */
  method UpdateMulti256(s: array<bv32>, blocks: array<bv8>, off: nat, n: nat)
    requires s.Length == 8 && off + 64 * n <= blocks.Length
    modifies s
    ensures s[..] == Blocks(old(s[..]), blocks[off..off + 64 * n])
  {
    hide Compress;
    ghost var s0 := s[..];
    var i := 0;
    while i < n
      invariant 0 <= i <= n && s[..] == Blocks(s0, blocks[off..off + 64 * i])
    {
      ghost var all := blocks[off..off + 64 * (i + 1)];
      assert all[..64 * i] == blocks[off..off + 64 * i] && all[64 * i..] == blocks[off + 64 * i..off + 64 * i + 64];
      Update256(s, blocks, off + 64 * i);
      i := i + 1;
    }
  }

  /** pad_256 */
  method Pad256(len: nat, dst: array<bv8>, at: nat)
    requires len < WORD64 && at + 9 + ZeroCount(len) <= dst.Length
    modifies dst
    ensures dst[..] == old(dst[..at]) + Padding(len) + old(dst[at + 9 + ZeroCount(len)..])
  {
    hide ByteAt, LengthField, Zeros, Padding;
    ghost var d := dst[..];
    var zeros := (128 - (9 + len % 64)) % 64;
    dst[at] := 0x80;
    ghost var d1 := dst[..];
    ZeroFill(dst, at + 1, zeros);
    ghost var d2 := dst[..];
    var dst3 := at + 1 + zeros;
    StoreLength(dst, dst3, len);
    ThreeWrites(d, d1, d2, dst[..], at, 0x80, Zeros(zeros), LengthField(len));
    PaddingIs(len);
  }

  lemma PaddingIs(len: nat)
    ensures Padding(len) == [0x80] + Zeros(ZeroCount(len)) + LengthField(len)
  {
  }

  /** Three writes one after the other. */
  lemma ThreeWrites(d: seq<bv8>, d1: seq<bv8>, d2: seq<bv8>, d3: seq<bv8>, at: nat, x: bv8, z: seq<bv8>, l: seq<bv8>)
    requires at + 1 + |z| + |l| <= |d|
    requires d1 == d[at := x] && d2 == d1[..at + 1] + z + d1[at + 1 + |z|..]
    requires d3 == d2[..at + 1 + |z|] + l + d2[at + 1 + |z| + |l|..]
    ensures d3 == d[..at] + ([x] + z + l) + d[at + 1 + |z| + |l|..]
  {
    var e := at + 1 + |z|;
    assert d1[..at + 1] == d[..at] + [x];
    assert d2[..e] == d1[..at + 1] + z;
    assert d2[e + |l|..] == d[e + |l|..];
    assert (d[..at] + [x] + z) + l == d[..at] + ([x] + z + l);
  }

  method ZeroFill(dst: array<bv8>, at: nat, zeros: nat)
    requires at + zeros <= dst.Length
    modifies dst
    ensures dst[..] == old(dst[..at]) + Zeros(zeros) + old(dst[at + zeros..])
  {
    ghost var d := dst[..];
    var i := 0;
    while i < zeros
      invariant 0 <= i <= zeros && dst[..at] == d[..at] && dst[at + i..] == d[at + i..]
      invariant forall k :: at <= k < at + i ==> dst[k] == 0
    {
      dst[at + i] := 0;
      i := i + 1;
    }
    assert dst[at..at + zeros] == Zeros(zeros);
    assert dst[..] == dst[..at] + dst[at..at + zeros] + dst[at + zeros..];
  }

  /** store64_be of the length in bits */
  method StoreLength(dst: array<bv8>, at: nat, len: nat)
    requires at + 8 <= dst.Length
    modifies dst
    ensures dst[..] == old(dst[..at]) + LengthField(len) + old(dst[at + 8..])
  {
    hide ByteAt, LengthField;
    var bits := (len * 8) % WORD64;
    LengthFieldIs(len, bits);
    forall k | 0 <= k < 8 { dst[at + k] := ByteAt(bits, 7 - k); }
    assert dst[at..at + 8] == LengthField(len);
    assert dst[..] == dst[..at] + dst[at..at + 8] + dst[at + 8..];
  }

  lemma PaddedSize(total: nat, restLen: nat)
    requires total % 64 == restLen
    ensures (restLen + 9 + ZeroCount(total)) % 64 == 0 && restLen + 9 + ZeroCount(total) <= 128
  {
  }

  /** The rest after the last whole block, with its padding, in a buffer of two blocks. */
  method PaddedRest(tmp: array<bv8>, total: nat, input: array<bv8>, at: nat, restLen: nat)
    requires tmp != input && tmp.Length == 128 && at + restLen <= input.Length && total < WORD64
      && total % 64 == restLen
    modifies tmp
    ensures restLen + 9 + ZeroCount(total) <= 128
    ensures tmp[0..restLen + 9 + ZeroCount(total)] == input[at..at + restLen] + Padding(total)
  {
    hide Padding;
    PaddedSize(total, restLen);
    forall k | 0 <= k < restLen { tmp[k] := input[at + k]; }
    assert tmp[..restLen] == input[at..at + restLen];
    Pad256(total, tmp, restLen);
  }

  /** update_last_256 */
  method UpdateLast256(s: array<bv32>, prevLen: nat, input: array<bv8>, off: nat, inputLen: nat)
    requires s.Length == 8 && off + inputLen <= input.Length && prevLen % 64 == 0 && prevLen + inputLen < WORD64
    modifies s
    ensures (inputLen + |Padding(prevLen + inputLen)|) % 64 == 0
    ensures s[..] == Blocks(old(s[..]), input[off..off + inputLen] + Padding(prevLen + inputLen))
  {
    hide Blocks, Padding;
    ghost var s0, msg := s[..], input[off..off + inputLen];
    var blocksN := inputLen / 64;
    var blocksLen := blocksN * 64;
    var restLen := inputLen - blocksLen;
    ghost var rest := msg[blocksLen..];
    assert input[off..off + 64 * blocksN] == msg[..blocksLen];
    UpdateMulti256(s, input, off, blocksN);
    var total := prevLen + inputLen;
    assert total % 64 == restLen;
    PaddedSize(total, restLen);
    var padLen := 1 + (128 - (9 + total % 64)) % 64 + 8;
    var tmpLen := restLen + padLen;
    var tmp := new bv8[128](_ => 0);
    assert input[off + blocksLen..off + blocksLen + restLen] == rest;
    PaddedRest(tmp, total, input, off + blocksLen, restLen);
    assert tmpLen == restLen + 9 + ZeroCount(total) && 64 * (tmpLen / 64) == tmpLen;
    UpdateMulti256(s, tmp, 0, tmpLen / 64);
    assert input[off..off + inputLen] == msg;
    SplitMessage(s0, msg, blocksLen, total);
  }

  lemma SplitMessage(s: seq<bv32>, msg: seq<bv8>, n: nat, total: nat)
    requires |s| == 8 && n <= |msg| && n % 64 == 0 && (|msg| - n + |Padding(total)|) % 64 == 0
    ensures (|msg| + |Padding(total)|) % 64 == 0
    ensures Blocks(Blocks(s, msg[..n]), msg[n..] + Padding(total)) == Blocks(s, msg + Padding(total))
  {
    hide Blocks, Padding;
    var rest := msg[n..] + Padding(total);
    assert msg[..n] + rest == msg + Padding(total);
    BlocksConcat(s, msg[..n], rest);
  }

  /** finish_256 */
  method Finish256(s: array<bv32>, dst: array<bv8>)
    requires s.Length == 8 && dst.Length >= 32
    modifies dst
    ensures dst[..32] == Digest(s[..]) && dst[32..] == old(dst[32..])
  {
    hide ByteOfWord;
    var i := 0;
    while i < 8
      invariant 0 <= i <= 8 && dst[32..] == old(dst[32..]) && s[..] == old(s[..])
      invariant forall k :: 0 <= k < 4 * i ==> dst[k] == DigestByte(s[..], k)
    {
      dst[4 * i] := ByteOfWord(s[i], 0);
      dst[4 * i + 1] := ByteOfWord(s[i], 1);
      dst[4 * i + 2] := ByteOfWord(s[i], 2);
      dst[4 * i + 3] := ByteOfWord(s[i], 3);
      i := i + 1;
    }
  }

  /** hash_256: the last full block is kept back for the padded end. */
  method Hash256(input: array<bv8>, inputLen: nat, dst: array<bv8>)
    requires inputLen <= input.Length && inputLen < 0x1_0000_0000 && dst.Length >= 32
    modifies dst
    ensures dst[..32] == Hash(old(input[..inputLen])) && dst[32..] == old(dst[32..])
  {
    hide Blocks, Padding, Digest, H0;
    TableSizes();
    ghost var msg := input[..inputLen];
    var scrut := new bv32[8](i requires 0 <= i < 8 => H0[i]);
    assert scrut[..] == H0;
    var blocksN0 := inputLen / 64;
    var blocksN1 := if inputLen % 64 == 0 && blocksN0 > 0 then blocksN0 - 1 else blocksN0;
    var blocksLen := blocksN1 * 64;
    var restLen := inputLen - blocksLen;
    assert input[0..64 * blocksN1] == msg[..blocksLen];
    UpdateMulti256(scrut, input, 0, blocksN1);
    UpdateLast256(scrut, blocksLen, input, blocksLen, restLen);
    assert input[blocksLen..blocksLen + restLen] == msg[blocksLen..];
    SplitMessage(H0, msg, blocksLen, inputLen);
    Finish256(scrut, dst);
  }
}
