/** The annotated SHA-256: every local is static storage that keeps what earlier calls left there. */
module StaticSha256 {
  import opened Arith
  import opened Sha256
  import opened HaclSha256

  /** The `confidential static` variables of Hacl_Hash_SHA2.c. No method asks anything of their contents. */
  class ShaStatics {
    const hash1: array<bv32>
    const computedWs: array<bv32>
    const tmpTwoblocks: array<bv8>
    const scrut: array<bv32>
    var u: bv32
    var t16: bv32
    var t15: bv32
    var t7: bv32
    var t2: bv32
    var s1: bv32
    var s0: bv32
    var w: bv32
    var a0: bv32
    var b0: bv32
    var c0: bv32
    var d0: bv32
    var e0: bv32
    var f0: bv32
    var g0: bv32
    var h02: bv32
    var rw: bv32
    var r1: bv32
    var r2: bv32
    var xi: bv32
    var yi: bv32

    /** The arrays have their declared sizes and are separate. */
    ghost predicate Shape() {
      && hash1.Length == 8 && computedWs.Length == 64 && tmpTwoblocks.Length == 128 && scrut.Length == 8
      && hash1 != computedWs && hash1 != scrut && computedWs != scrut
    }

    /** All static storage, for frames. */
    ghost function Storage(): set<object> { {this, hash1, computedWs, tmpTwoblocks, scrut} }

    constructor ()
      ensures Shape() && fresh(Storage())
    {
      hash1 := new bv32[8](_ => 0);
      computedWs := new bv32[64](_ => 0);
      tmpTwoblocks := new bv8[128](_ => 0);
      scrut := new bv32[8](_ => 0);
    }

    /** One more word of the schedule. */
    method ScheduleWord(block: array<bv8>, off: nat, i: nat, ghost b: seq<bv8>)
      requires Shape() && off + 64 <= block.Length && b == block[off..off + 64] && i < 64
      requires forall j :: 0 <= j < i ==> computedWs[j] == Schedule(Words(b), j)
      modifies this, computedWs
      ensures forall j :: 0 <= j <= i ==> computedWs[j] == Schedule(Words(b), j)
    {
      hide SmallSigma0, SmallSigma1, Sum4, Word;
      if i < 16 {
        var p := off + i * 4;
        ghost var q := i * 4;
        PartOfPart(block[..], off, off + 64, q, q + 4);
        SameWord(b, q, block[p..p + 4]);
        u := Word(block[p..p + 4], 0);
        computedWs[i] := u;
      } else {
        t16 := computedWs[i - 16];
        t15 := computedWs[i - 15];
        t7 := computedWs[i - 7];
        t2 := computedWs[i - 2];
        s1 := SmallSigma1(t2);
        s0 := SmallSigma0(t15);
        w := Sum4(s1, t7, s0, t16);
        computedWs[i] := w;
      }
    }

    method LoadRegisters()
      requires Shape()
      modifies this
      ensures [a0, b0, c0, d0, e0, f0, g0, h02] == hash1[..]
    {
      a0, b0, c0, d0 := hash1[0], hash1[1], hash1[2], hash1[3];
      e0, f0, g0, h02 := hash1[4], hash1[5], hash1[6], hash1[7];
    }

    method StoreRegisters()
      requires Shape()
      modifies hash1
      ensures Holds(hash1[..], Regs(Plus(r1, r2), a0, b0, c0, Plus(d0, r1), e0, f0, g0))
    {
      hide Plus;
      hash1[0] := Plus(r1, r2);
      hash1[1] := a0;
      hash1[2] := b0;
      hash1[3] := c0;
      hash1[4] := Plus(d0, r1);
      hash1[5] := e0;
      hash1[6] := f0;
      hash1[7] := g0;
    }

    /** One round, shifting the registers along the array. */
    method ShiftingRound(i: nat, ghost m: seq<bv32>, ghost r: Regs)
      requires Shape() && i < 64 && |m| == 16
      requires computedWs[i] == Schedule(m, i) && Holds(hash1[..], Rounds(m, r, i))
      modifies this, hash1
      ensures Holds(hash1[..], Rounds(m, r, i + 1))
    {
      hide K, BigSigma0, BigSigma1, Choice, Majority, Plus, Sum5, Schedule, Rounds, Holds;
      ghost var h := hash1[..];
      HoldsRound(m, r, i, h);
      LoadRegisters();
      assert a0 == h[0] && b0 == h[1] && c0 == h[2] && d0 == h[3] && e0 == h[4] && f0 == h[5] && g0 == h[6]
        && h02 == h[7];
      rw := computedWs[i];
      r1 := Sum5(h02, BigSigma1(e0), Choice(e0, f0, g0), K(i), rw);
      r2 := Plus(BigSigma0(a0), Majority(a0, b0, c0));
      StoreRegisters();
    }

    /** update_256: the same new state as with fresh locals, whatever the storage held. */
    method Update256(hash: array<bv32>, block: array<bv8>, off: nat)
      requires Shape() && hash.Length == 8 && hash != hash1 && hash != computedWs && off + 64 <= block.Length
      modifies this, hash1, computedWs, hash
      ensures hash[..] == Compress(old(hash[..]), block[off..off + 64])
    {
      hide Words, Schedule, Rounds, Plus, Holds, AddTo;
      ghost var s, b := hash[..], block[off..off + 64];
      ghost var m, r := Words(b), Load(hash[..]);
      var i := 0;
      while i < 64
        invariant 0 <= i <= 64 && block[off..off + 64] == b && hash[..] == s
        invariant forall j :: 0 <= j < i ==> computedWs[j] == Schedule(m, j)
      {
        ScheduleWord(block, off, i, b);
        i := i + 1;
      }
      forall k | 0 <= k < 8 { hash1[k] := hash[k]; }
      HoldsStart(s, hash1[..], m);
      i := 0;
      while i < 64
        invariant 0 <= i <= 64 && hash[..] == s && Holds(hash1[..], Rounds(m, r, i))
        invariant forall j :: 0 <= j < 64 ==> computedWs[j] == Schedule(m, j)
      {
        ShiftingRound(i, m, r);
        i := i + 1;
      }
      AddWords(hash, Rounds(m, r, 64));
      assert block[off..off + 64] == b;
    }

    method AddWords(hash: array<bv32>, ghost r: Regs)
      requires Shape() && hash.Length == 8 && hash != hash1 && Holds(hash1[..], r)
      modifies this, hash
      ensures hash[..] == AddTo(old(hash[..]), r)
    {
      hide Plus, Holds, AddTo;
      ghost var s := hash[..];
      HoldsSum(s, hash1[..], r);
      var i := 0;
      while i < 8
        invariant 0 <= i <= 8 && hash1[..] == old(hash1[..])
        invariant forall k :: 0 <= k < i ==> hash[k] == Plus(s[k], hash1[k])
        invariant forall k :: i <= k < 8 ==> hash[k] == s[k]
      {
        xi := hash[i];
        yi := hash1[i];
        hash[i] := Plus(xi, yi);
        i := i + 1;
      }
      assert hash[..] == AddTo(s, r);
    }

    /** update_multi_256 */
    method UpdateMulti256(s: array<bv32>, blocks: array<bv8>, off: nat, n: nat)
      requires Shape() && s.Length == 8 && s != hash1 && s != computedWs && off + 64 * n <= blocks.Length
      modifies this, hash1, computedWs, s
      ensures s[..] == Blocks(old(s[..]), blocks[off..off + 64 * n])
    {
      hide Compress;
      ghost var s0 := s[..];
      var i := 0;
      while i < n
        invariant 0 <= i <= n && s[..] == Blocks(s0, blocks[off..off + 64 * i])
      {
        ghost var all := blocks[off..off + 64 * (i + 1)];
        assert all[..64 * i] == blocks[off..off + 64 * i] && all[64 * i..] == blocks[off + 64 * i..off + 64 * i + 64];
        Update256(s, blocks, off + 64 * i);
        i := i + 1;
      }
    }

    /** update_last_256: only the front of the stale two-block buffer is refreshed. */
    method UpdateLast256(s: array<bv32>, prevLen: nat, input: array<bv8>, off: nat, inputLen: nat)
      requires Shape() && s.Length == 8 && s != hash1 && s != computedWs && input != tmpTwoblocks
      requires off + inputLen <= input.Length && prevLen % 64 == 0 && prevLen + inputLen < WORD64
      modifies this, hash1, computedWs, tmpTwoblocks, s
      ensures (inputLen + |Padding(prevLen + inputLen)|) % 64 == 0
      ensures s[..] == Blocks(old(s[..]), input[off..off + inputLen] + Padding(prevLen + inputLen))
    {
      hide Blocks, Padding;
      ghost var s0, msg := s[..], input[off..off + inputLen];
      var blocksN := inputLen / 64;
      var blocksLen := blocksN * 64;
      var restLen := inputLen - blocksLen;
      ghost var rest := msg[blocksLen..];
      PartOfPart(input[..], off, off + inputLen, 0, blocksLen);
      UpdateMulti256(s, input, off, blocksN);
      var total := prevLen + inputLen;
      assert total % 64 == restLen;
      PaddedSize(total, restLen);
      var padLen := 1 + (128 - (9 + total % 64)) % 64 + 8;
      var tmpLen := restLen + padLen;
      assert input[off + blocksLen..off + blocksLen + restLen] == rest;
      PaddedRest(tmpTwoblocks, total, input, off + blocksLen, restLen);
      assert tmpLen == restLen + 9 + ZeroCount(total) && 64 * (tmpLen / 64) == tmpLen;
      UpdateMulti256(s, tmpTwoblocks, 0, tmpLen / 64);
      assert input[off..off + inputLen] == msg;
      SplitMessage(s0, msg, blocksLen, total);
    }

    /** hash_256: after any earlier calls, the output is the hash of this input. */
    method Hash256(input: array<bv8>, inputLen: nat, dst: array<bv8>)
      requires Shape() && inputLen <= input.Length && inputLen < 0x1_0000_0000 && dst.Length >= 32
      requires input != tmpTwoblocks && dst != tmpTwoblocks
      modifies Storage(), dst
      ensures dst[..32] == Hash(old(input[..inputLen])) && dst[32..] == old(dst[32..])
    {
      hide Blocks, Padding, Digest;
      ghost var msg := input[..inputLen];
      InitScrut();
      hide H0;
      var blocksN0 := inputLen / 64;
      var blocksN1 := if inputLen % 64 == 0 && blocksN0 > 0 then blocksN0 - 1 else blocksN0;
      var blocksLen := blocksN1 * 64;
      var restLen := inputLen - blocksLen;
      assert input[0..64 * blocksN1] == msg[..blocksLen];
      UpdateMulti256(scrut, input, 0, blocksN1);
      UpdateLast256(scrut, blocksLen, input, blocksLen, restLen);
      assert input[blocksLen..blocksLen + restLen] == msg[blocksLen..];
      SplitMessage(H0, msg, blocksLen, inputLen);
      Finish256(scrut, dst);
    }

    /** The initial value is stored word by word over the stale state. */
    method InitScrut()
      requires Shape()
      modifies scrut
      ensures |H0| == 8 && scrut[..] == H0
    {
      scrut[0] := 0x6a09e667;
      scrut[1] := 0xbb67ae85;
      scrut[2] := 0x3c6ef372;
      scrut[3] := 0xa54ff53a;
      scrut[4] := 0x510e527f;
      scrut[5] := 0x9b05688c;
      scrut[6] := 0x1f83d9ab;
      scrut[7] := 0x5be0cd19;
      TableSizes();
      EightEqual(scrut[..], H0);
    }
  }
}
