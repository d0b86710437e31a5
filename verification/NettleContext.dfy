/** Nettle's streaming SHA-256 context. */
module NettleContext {
  import opened Arith
  import opened Sha256
  import opened NettleSha256

  // ---- what the context has taken in ----

  /** `s` is the state after the whole blocks `data`, `c` their number modulo 2^64. */
  ghost predicate Taken(data: seq<bv8>, s: seq<bv32>, c: nat) {
    |H0| == 8 && |data| % 64 == 0 && s == Blocks(H0, data) && c == (|data| / 64) % WORD64
  }

  lemma TakeBlock(data: seq<bv8>, s: seq<bv32>, c: nat, block: seq<bv8>)
    requires Taken(data, s, c) && |block| == 64
    ensures |s| == 8 && Taken(data + block, Compress(s, block), (c + 1) % WORD64)
  {
    hide Compress, H0;
    var all := data + block;
    assert all[..|all| - 64] == data && all[|all| - 64..] == block;
    assert |all| / 64 == |data| / 64 + 1;
    CountStep(|data| / 64);
  }

  lemma CountStep(q: nat)
    ensures ((q % WORD64) + 1) % WORD64 == (q + 1) % WORD64
  {
  }

  // ---- the length in bits ----

  /** Block count and index together give the length in bits. */
  lemma BitCount(n: nat, index: nat)
    requires index < 64 && index <= n && (n - index) % 64 == 0
    ensures Or((((n - index) / 64) % WORD64 * 512) % WORD64, index * 8) == (8 * n) % WORD64
  {
    hide Or, Pow2;
    var q := (n - index) / 64;
    var a := q % 0x80_0000_0000_0000;
    ShiftedCount(q);
    assert Pow2(9) == 512 by { Pow2At9(); }
    OrDisjoint(a, 9, index * 8);
    LengthMod(n, q, index, a);
  }

  lemma Pow2At9()
    ensures Pow2(9) == 512
  {
  }

  lemma ShiftedCount(q: nat)
    ensures (q % WORD64 * 512) % WORD64 == (q % 0x80_0000_0000_0000) * 512
  {
    var m: nat := 0x80_0000_0000_0000;
    var u, t := q / WORD64, q % WORD64;
    var v, a := t / m, t % m;
    DivModUnique(t * 512, WORD64, v, a * 512);
    assert q == m * (512 * u + v) + a;
    DivModUnique(q, m, 512 * u + v, a);
  }

  lemma LengthMod(n: nat, q: nat, index: nat, a: nat)
    requires n == 64 * q + index && index < 64 && a == q % 0x80_0000_0000_0000
    ensures a * 512 + index * 8 == (8 * n) % WORD64
  {
    var v := q / 0x80_0000_0000_0000;
    assert 8 * n == WORD64 * v + (a * 512 + index * 8);
    DivModUnique(8 * n, WORD64, v, a * 512 + index * 8);
  }

  // ---- the padded last blocks ----

  /** With room for the length, the rest of the message and its padding are one block. */
  lemma OneLastBlock(n: nat, tail: seq<bv8>, block: seq<bv8>)
    requires |tail| <= 55 && |tail| <= n && (n - |tail|) % 64 == 0 && |block| == 64
    requires block[..|tail|] == tail && block[|tail|] == 0x80 && block[56..] == LengthField(n)
    requires forall k :: |tail| < k < 56 ==> block[k] == 0
    ensures tail + Padding(n) == block
  {
    hide LengthField;
    assert n % 64 == |tail|;
    assert ZeroCount(n) == 55 - |tail|;
    var p := tail + Padding(n);
    assert p[..|tail|] == tail && p[|tail|] == 0x80;
    assert p[56..] == LengthField(n);
    forall k | 0 <= k < 64 ensures p[k] == block[k] {
      if k >= 56 { assert p[k] == p[56..][k - 56] && block[k] == block[56..][k - 56]; }
      else if k < |tail| { assert p[k] == p[..|tail|][k] && block[k] == block[..|tail|][k]; }
    }
  }

  /** Without room for the length, the padding takes a second block. */
  lemma TwoLastBlocks(n: nat, tail: seq<bv8>, first: seq<bv8>, second: seq<bv8>)
    requires 56 <= |tail| < 64 && |tail| <= n && (n - |tail|) % 64 == 0 && |first| == |second| == 64
    requires first[..|tail|] == tail && first[|tail|] == 0x80 && forall k :: |tail| < k < 64 ==> first[k] == 0
    requires second[56..] == LengthField(n) && forall k :: 0 <= k < 56 ==> second[k] == 0
    ensures tail + Padding(n) == first + second
  {
    hide LengthField;
    assert n % 64 == |tail|;
    assert ZeroCount(n) == 119 - |tail|;
    var p, q := tail + Padding(n), first + second;
    assert p[..|tail|] == tail && p[|tail|] == 0x80;
    assert p[120..] == LengthField(n) && q[120..] == second[56..];
    forall k | 0 <= k < 128 ensures p[k] == q[k] {
      if k >= 120 { assert p[k] == p[120..][k - 120] && q[k] == q[120..][k - 120]; }
      else if k < |tail| { assert p[k] == p[..|tail|][k] && first[k] == first[..|tail|][k]; }
    }
  }

  /** Both cases: what was compressed while padding, then the last block. */
  lemma LastBlocks(n: nat, tail: seq<bv8>, last: seq<bv8>, padded: seq<bv8>, b: seq<bv8>)
    requires |tail| < 64 && |tail| <= n && (n - |tail|) % 64 == 0 && |padded| == |b| == 64
    requires |tail| < 56 ==> last == [] && padded[..|tail|] == tail && padded[|tail|] == 0x80
    requires |tail| < 56 ==> forall k :: |tail| < k < 56 ==> padded[k] == 0
    requires |tail| >= 56 ==> |last| == 64 && last[..|tail|] == tail && last[|tail|] == 0x80
    requires |tail| >= 56 ==>
      (forall k :: |tail| < k < 64 ==> last[k] == 0) && forall k :: 0 <= k < 56 ==> padded[k] == 0
    requires b[56..] == LengthField(n) && b[..56] == padded[..56]
    ensures tail + Padding(n) == last + b
  {
    hide LengthField, Padding;
    assert forall k :: 0 <= k < 56 ==> b[k] == b[..56][k] == padded[..56][k] == padded[k];
    if |tail| < 56 {
      assert b[..|tail|] == padded[..|tail|];
      OneLastBlock(n, tail, b);
      assert last + b == b;
    } else {
      TwoLastBlocks(n, tail, last, b);
    }
  }

  /** The hash is the digest of the state after the padded message. */
  lemma PaddedHash(head: seq<bv8>, tail: seq<bv8>, s: seq<bv32>, c: nat, last: seq<bv8>)
    requires Taken(head, s, c) && |last| % 64 == 0 && tail + Padding(|head + tail|) == last
    ensures |s| == 8 && Hash(head + tail) == Digest(Blocks(s, last))
  {
    hide Blocks, H0, Padding, Digest;
    var msg := head + tail;
    assert msg + Padding(|msg|) == head + last;
    BlocksConcat(H0, head, last);
  }

  // ---- writing the digest ----

  /** WRITE_UINT32 */
  method WriteWord(dst: array<bv8>, at: nat, w: bv32)
    requires at + 4 <= dst.Length
    modifies dst
    ensures dst[..] == old(dst[..at]) + WordBytes(w) + old(dst[at + 4..])
  {
    hide ByteOfWord;
    dst[at] := ByteOfWord(w, 0);
    dst[at + 1] := ByteOfWord(w, 1);
    dst[at + 2] := ByteOfWord(w, 2);
    dst[at + 3] := ByteOfWord(w, 3);
  }

  function WordBytes(w: bv32): (r: seq<bv8>)
    ensures |r| == 4 && forall k :: 0 <= k < 4 ==> r[k] == ByteOfWord(w, k)
  {
    [ByteOfWord(w, 0), ByteOfWord(w, 1), ByteOfWord(w, 2), ByteOfWord(w, 3)]
  }

  /** The bytes of a last word that is written only in part. */
  method WriteLeftover(dst: array<bv8>, at: nat, leftover: nat, word: bv32)
    requires 1 <= leftover <= 3 && at + leftover <= dst.Length
    modifies dst
    ensures dst[..] == old(dst[..at]) + WordBytes(word)[..leftover] + old(dst[at + leftover..])
  {
    hide ByteOfWord;
    var j := leftover;
    if leftover == 3 {
      j := j - 1;
      dst[at + j] := ByteOfWord(word, 2);
    }
    if leftover >= 2 {
      j := j - 1;
      dst[at + j] := ByteOfWord(word, 1);
    }
    j := j - 1;
    dst[at + j] := ByteOfWord(word, 0);
  }

  lemma DigestGrows(s: seq<bv32>, i: nat, k: nat)
    requires |s| == 8 && i < 8 && k <= 4
    ensures Digest(s)[..4 * i + k] == Digest(s)[..4 * i] + WordBytes(s[i])[..k]
  {
    hide ByteOfWord;
    forall x | 4 * i <= x < 4 * i + k ensures Digest(s)[x] == WordBytes(s[i])[x - 4 * i] {
      assert x / 4 == i && x % 4 == x - 4 * i;
    }
  }

  /** Writing w after the first n bytes of d, in the place of what was there. */
  lemma PrefixGrows(o: seq<bv8>, o': seq<bv8>, d: seq<bv8>, n: nat, w: seq<bv8>)
    requires n + |w| <= |o| && n + |w| <= |d| && o' == o[..n] + w + o[n + |w|..]
    requires o[..n] == d[..n] && d[..n + |w|] == d[..n] + w[..|w|]
    ensures o'[..n + |w|] == d[..n + |w|] && o'[n + |w|..] == o[n + |w|..] == o[n..][|w|..]
  {
  }

  /** The first `length` bytes of the state words, big-endian, the last word possibly in part. */
  method WriteBe32(length: nat, dst: array<bv8>, src: array<bv32>)
    requires src.Length == 8 && length <= 32 && length <= dst.Length
    modifies dst
    ensures dst[..length] == Digest(src[..])[..length] && dst[length..] == old(dst[length..])
  {
    hide ByteOfWord, WordBytes, Digest;
    ghost var d := Digest(src[..]);
    var words := length / 4;
    var leftover := length % 4;
    var i := 0;
    while i < words
      invariant 0 <= i <= words && dst[..4 * i] == d[..4 * i] && src[..] == old(src[..])
      invariant dst[4 * i..] == old(dst[4 * i..])
    {
      DigestGrows(src[..], i, 4);
      ghost var o, w := dst[..], WordBytes(src[i]);
      WriteWord(dst, 4 * i, src[i]);
      PrefixGrows(o, dst[..], d, 4 * i, w);
      i := i + 1;
    }
    if leftover != 0 {
      DigestGrows(src[..], i, leftover);
      ghost var o, w := dst[..], WordBytes(src[i])[..leftover];
      WriteLeftover(dst, 4 * i, leftover, src[i]);
      PrefixGrows(o, dst[..], d, 4 * i, w);
    }
  }

  /** memcpy into the block */
  method CopyIn(block: array<bv8>, at: nat, data: array<bv8>, off: nat, len: nat)
    requires block != data && at + len <= block.Length && off + len <= data.Length
    modifies block
    ensures block[..] == old(block[..at]) + data[off..off + len] + old(block[at + len..])
  {
    forall k | 0 <= k < len { block[at + k] := data[off + k]; }
  }

  // ---- the context ----

  class Context {
    const state: array<bv32>
    const block: array<bv8>
    var count: nat
    var index: nat
    /** Everything absorbed since the last initialisation. */
    ghost var absorbed: seq<bv8>

    ghost predicate Valid()
      reads this, state, block
    {
      && state.Length == 8 && block.Length == 64 && index < 64 && index <= |absorbed|
      && Taken(absorbed[..|absorbed| - index], state[..], count)
      && block[..index] == absorbed[|absorbed| - index..]
    }

    constructor ()
      ensures Valid() && absorbed == [] && fresh(state) && fresh(block)
    {
      state := new bv32[8];
      block := new bv8[64];
      new;
      Init();
    }

    /** sha256_init */
    method Init()
      requires state.Length == 8 && block.Length == 64
      modifies this, state
      ensures Valid() && absorbed == []
    {
      TableSizes();
      forall i | 0 <= i < 8 { state[i] := H0[i]; }
      count := 0;
      index := 0;
      absorbed := [];
      assert state[..] == H0;
    }

    /** COMPRESS and the increment of the block count. */
    method TakeBlockAt(input: array<bv8>, off: nat, ghost data: seq<bv8>)
      requires state.Length == 8 && off + 64 <= input.Length && Taken(data, state[..], count)
      modifies this`count, state
      ensures Taken(data + input[off..off + 64], state[..], count)
    {
      hide Taken, Compress;
      TakeBlock(data, state[..], count, input[off..off + 64]);
      CompressBlock(state, input, off);
      count := (count + 1) % WORD64;
    }

    /** The first half of MD_UPDATE: completes a block begun before, if the data reaches that far. */
    method FillBlock(length: nat, data: array<bv8>) returns (off: nat, done: bool)
      requires Valid() && length <= data.Length && data != block
      modifies this, state, block
      ensures unchanged(this`absorbed) && off <= length
      ensures done ==> index < 64 && index <= |absorbed| + length
      ensures done ==> Taken((absorbed + data[..length])[..|absorbed| + length - index], state[..], count)
      ensures done ==> block[..index] == (absorbed + data[..length])[|absorbed| + length - index..]
      ensures !done ==> Taken(absorbed + data[..off], state[..], count)
    {
      hide Taken;
      ghost var before, chunk, s, tail := absorbed, data[..length], state[..], block[..index];
      ghost var head := before[..|before| - index];
      off, done := 0, false;
      if index != 0 {
        var left := 64 - index;
        if length < left {
          CopyIn(block, index, data, 0, length);
          index := index + length;
          done := true;
          assert state[..] == s && block[..index] == tail + chunk;
          assert (before + chunk)[..|before| + length - index] == head;
        } else {
          CopyIn(block, index, data, 0, left);
          assert state[..] == s && block[0..0 + 64] == tail + chunk[..left];
          TakeBlockAt(block, 0, head);
          off := left;
          assert head + (tail + chunk[..left]) == before + data[..off];
        }
      } else {
        assert head == before + data[..off];
      }
    }

    /** sha256_update: any chunk, of any length, is appended to what was absorbed. */
    method Update(length: nat, data: array<bv8>)
      requires Valid() && length <= data.Length && data != block
      modifies this, state, block
      ensures Valid() && absorbed == old(absorbed) + data[..length]
    {
      hide Taken;
      ghost var before, chunk := absorbed, data[..length];
      var off, done := FillBlock(length, data);
      absorbed := before + chunk;
      if done {
        return;
      }
      assert chunk[..off] == data[..off];
      while length - off >= 64
        invariant off <= length && data[..length] == chunk && absorbed == before + chunk
        invariant Taken(before + chunk[..off], state[..], count)
      {
        assert (before + chunk[..off]) + data[off..off + 64] == before + chunk[..off + 64];
        TakeBlockAt(data, off, before + chunk[..off]);
        off := off + 64;
      }
      ghost var s := state[..];
      CopyIn(block, 0, data, off, length - off);
      index := length - off;
      assert state[..] == s && absorbed[..|absorbed| - index] == before + chunk[..off];
      assert block[..index] == absorbed[|absorbed| - index..];
    }

    /** MD_PAD: 0x80 and zeros, with a compression in between when the length has no room left. */
    method Pad() returns (ghost last: seq<bv8>)
      requires state.Length == 8 && block.Length == 64 && index < 64
      modifies state, block
      ensures index < 56 ==> last == [] && block[..index] == old(block[..index]) && block[index] == 0x80
      ensures index < 56 ==> forall k :: index < k < 56 ==> block[k] == 0
      ensures index >= 56 ==> |last| == 64 && last[..index] == old(block[..index]) && last[index] == 0x80
      ensures index >= 56 ==> (forall k :: index < k < 64 ==> last[k] == 0) && forall k :: 0 <= k < 56 ==> block[k] == 0
      ensures |last| % 64 == 0 && state[..] == Blocks(old(state[..]), last)
    {
      hide Compress;
      last := [];
      ghost var s := state[..];
      var i := index;
      block[i] := 0x80;
      i := i + 1;
      if i > 56 {
        forall k | i <= k < 64 { block[k] := 0; }
        last := block[..];
        assert block[0..64] == last && state[..] == s;
        BlocksOne(s, last);
        CompressBlock(state, block, 0);
        i := 0;
      }
      forall k | i <= k < 56 { block[k] := 0; }
    }

    /** The padding and the last compressions: afterwards the state digests to the hash. */
    method Finish()
      requires Valid()
      modifies state, block
      ensures state.Length == 8 && Digest(state[..]) == Hash(absorbed)
    {
      hide Taken, Padding, Digest, Compress, LengthField, ByteAt, Or, Blocks;
      ghost var n := |absorbed|;
      ghost var head, tail, s := absorbed[..n - index], absorbed[n - index..], state[..];
      assert absorbed == head + tail;
      TakenSize(head, s, count);
      ghost var last := Pad();
      ghost var s1 := state[..];
      var bits := Or((count * 512) % WORD64, index * 8);
      BitCount(n, index);
      LengthFieldIs(n, bits);
      ghost var padded := block[..];
      forall k | 0 <= k < 8 { block[56 + k] := ByteAt(bits, 7 - k); }
      ghost var b := block[..];
      assert b[56..] == LengthField(n) && b[..56] == padded[..56];
      LastBlocks(n, tail, last, padded, b);
      assert block[0..64] == b && state[..] == s1;
      CompressBlock(state, block, 0);
      BlocksOne(s1, b);
      BlocksConcat(s, last, b);
      PaddedHash(head, tail, s, count, last + b);
    }

    lemma TakenSize(data: seq<bv8>, s: seq<bv32>, c: nat)
      requires Taken(data, s, c)
      ensures |data| % 64 == 0 && |s| == 8 && c == (|data| / 64) % WORD64
    {
      hide Blocks, H0;
    }

    /** sha256_digest: the first bytes of the hash of everything absorbed; the context starts afresh. */
    method GetDigest(length: nat, digest: array<bv8>)
      requires Valid() && length <= 32 && length <= digest.Length && digest != block
      modifies this, state, block, digest
      ensures Valid() && absorbed == []
      ensures digest[..length] == Hash(old(absorbed))[..length] && digest[length..] == old(digest[length..])
    {
      hide Hash, Digest;
      Finish();
      WriteBe32(length, digest, state);
      Init();
    }
  }
}
