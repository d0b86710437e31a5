/** HMAC-SHA-256 over static storage, and the version with fresh locals. */
module Hmac {
  import opened Sha256
  import opened HaclSha256
  import opened StaticSha256

  // ---- RFC 2104 ----

  /** The key, hashed if longer than a block, filled up with zeros. */
  function KeyBlock(key: seq<bv8>): (k: seq<bv8>)
    ensures |k| == 64
  {
    if |key| <= 64 then key + Zeros(64 - |key|) else Hash(key) + Zeros(32)
  }

  function Xor8(a: bv8, b: bv8): bv8 { a ^ b }

  function XorPad(k: seq<bv8>, pad: bv8): (r: seq<bv8>)
    ensures |r| == |k|
  {
    seq(|k|, i requires 0 <= i < |k| => Xor8(pad, k[i]))
  }

  /** H((K ^ opad) || H((K ^ ipad) || message)) */
  function Mac(key: seq<bv8>, msg: seq<bv8>): (r: seq<bv8>)
    ensures |r| == 32
  {
    var k := KeyBlock(key);
    Hash(XorPad(k, 0x5c) + Hash(XorPad(k, 0x36) + msg))
  }

  /** Hashing in two parts, the first one block. */
  lemma HashAfterBlock(block: seq<bv8>, msg: seq<bv8>)
    requires |block| == 64
    ensures |H0| == 8 && (|msg| + |Padding(64 + |msg|)|) % 64 == 0
    ensures Hash(block + msg) == Digest(Blocks(Blocks(H0, block), msg + Padding(64 + |msg|)))
  {
    hide Blocks, Padding, Digest, H0;
    TableSizes();
    SplitMessage(H0, block + msg, 64, 64 + |msg|);
    assert (block + msg)[..64] == block && (block + msg)[64..] == msg;
  }

  /** The `confidential static` variables of Hacl_HMAC.c, next to those of the hash. */
  class HmacStatics {
    const sha: ShaStatics
    const keyBlock: array<bv8>
    const ipad: array<bv8>
    const opad: array<bv8>
    const scrut0: array<bv32>
    var xi: bv8
    var yi: bv8

    ghost predicate Shape() {
      && sha.Shape() && keyBlock.Length == 64 && ipad.Length == 64 && opad.Length == 64 && scrut0.Length == 8
      && keyBlock != ipad && keyBlock != opad && ipad != opad
      && keyBlock != sha.tmpTwoblocks && ipad != sha.tmpTwoblocks && opad != sha.tmpTwoblocks
      && scrut0 != sha.hash1 && scrut0 != sha.computedWs && scrut0 != sha.scrut
    }

    ghost function Storage(): set<object> { {this, keyBlock, ipad, opad, scrut0} + sha.Storage() }

    constructor ()
      ensures Shape() && fresh(Storage())
    {
      sha := new ShaStatics();
      keyBlock := new bv8[64](_ => 0);
      ipad := new bv8[64](_ => 0);
      opad := new bv8[64](_ => 0);
      scrut0 := new bv32[8](_ => 0);
    }

    /** The key block, over whatever an earlier key left there. */
    method SetKey(key: array<bv8>, keyLen: nat)
      requires Shape() && keyLen <= key.Length && keyLen < 0x1_0000_0000 && key !in Storage()
      modifies keyBlock, sha.Storage()
      ensures keyBlock[..] == KeyBlock(key[..keyLen])
    {
      hide Hash;
      ghost var k := key[..keyLen];
      forall i | 0 <= i < 64 { keyBlock[i] := 0; }
      if keyLen <= 64 {
        forall i | 0 <= i < keyLen { keyBlock[i] := key[i]; }
        assert keyBlock[..] == k + Zeros(64 - keyLen);
      } else {
        sha.Hash256(key, keyLen, keyBlock);
        assert keyBlock[..] == keyBlock[..32] + keyBlock[32..] && keyBlock[32..] == Zeros(32);
      }
      assert key[..keyLen] == k;
    }

    /** One of the two pads: the constant byte, then the key block exclusive-ored in place. */
    method XorKey(dst: array<bv8>, pad: bv8)
      requires Shape() && (dst == ipad || dst == opad)
      modifies this, dst
      ensures dst[..] == XorPad(keyBlock[..], pad)
    {
      hide Xor8;
      forall i | 0 <= i < 64 { dst[i] := pad; }
      var i := 0;
      while i < 64
        invariant 0 <= i <= 64 && keyBlock[..] == old(keyBlock[..])
        invariant forall j :: 0 <= j < i ==> dst[j] == Xor8(pad, keyBlock[j])
        invariant forall j :: i <= j < 64 ==> dst[j] == pad
      {
        xi := dst[i];
        yi := keyBlock[i];
        dst[i] := Xor8(xi, yi);
        i := i + 1;
      }
    }

    /** init_256 */
    method InitState()
      requires Shape()
      modifies scrut0
      ensures |H0| == 8 && scrut0[..] == H0
    {
      TableSizes();
      forall i | 0 <= i < 8 { scrut0[i] := H0[i]; }
    }

    /** A message after one block already absorbed; its last full block is kept back for the end. */
    method UpdateRest(data: array<bv8>, off: nat, len: nat)
      requires Shape() && off + len <= data.Length && len < 0x1_0000_0000 && data != sha.tmpTwoblocks
      modifies scrut0, sha.Storage()
      ensures (len + |Padding(64 + len)|) % 64 == 0
      ensures scrut0[..] == Blocks(old(scrut0[..]), data[off..off + len] + Padding(64 + len))
    {
      hide Blocks, Padding;
      ghost var s, msg := scrut0[..], data[off..off + len];
      var nBlocks0 := len / 64;
      var rem := len % 64;
      var nBlocks, remLen: nat;
      if nBlocks0 > 0 && rem == 0 {
        nBlocks := nBlocks0 - 1;
        remLen := len - nBlocks * 64;
      } else {
        nBlocks := nBlocks0;
        remLen := rem;
      }
      var fullLen := nBlocks * 64;
      assert data[off..off + 64 * nBlocks] == msg[..fullLen];
      sha.UpdateMulti256(scrut0, data, off, nBlocks);
      assert data[off + fullLen..off + fullLen + remLen] == msg[fullLen..];
      sha.UpdateLast256(scrut0, 64 + fullLen, data, off + fullLen, remLen);
      assert data[off..off + len] == msg;
      SplitMessage(s, msg, fullLen, 64 + len);
    }

    /** The inner hash, left in the first half of ipad. */
    method InnerHash(data: array<bv8>, off: nat, len: nat)
      requires Shape() && off + len <= data.Length && len < 0x1_0000_0000 && data !in Storage()
      modifies scrut0, ipad, sha.Storage()
      ensures ipad[..32] == Hash(old(ipad[..]) + old(data[off..off + len]))
    {
      hide Blocks, Padding, Digest, Hash, H0;
      ghost var block, msg := ipad[..], data[off..off + len];
      InitState();
      HashAfterBlock(block, msg);
      assert ipad[0..64] == block;
      if len == 0 {
        sha.UpdateLast256(scrut0, 0, ipad, 0, 64);
        assert msg == [];
        OneBlockMessage(block);
      } else {
        sha.UpdateMulti256(scrut0, ipad, 0, 1);
        UpdateRest(data, off, len);
      }
      Finish256(scrut0, ipad);
    }

    lemma OneBlockMessage(block: seq<bv8>)
      requires |block| == 64
      ensures |H0| == 8 && (64 + |Padding(64)|) % 64 == 0
      ensures Digest(Blocks(H0, block + Padding(64))) == Hash(block + [])
    {
      hide Blocks, Padding, Digest, H0;
      TableSizes();
      assert block + [] == block;
    }

    /** The outer hash of opad and the inner one. */
    method OuterHash(dst: array<bv8>)
      requires Shape() && dst.Length >= 32 && dst !in Storage()
      modifies scrut0, dst, sha.Storage()
      ensures dst[..32] == Hash(opad[..] + ipad[..32]) && dst[32..] == old(dst[32..])
    {
      hide Blocks, Padding, Digest, Hash, H0;
      ghost var block, inner := opad[..], ipad[..32];
      InitState();
      HashAfterBlock(block, inner);
      assert opad[0..64] == block && ipad[0..32] == inner;
      sha.UpdateMulti256(scrut0, opad, 0, 1);
      UpdateRest(ipad, 0, 32);
      Finish256(scrut0, dst);
      assert opad[..] == block && ipad[..32] == inner;
    }

    /** compute_sha2_256: whatever the storage holds, the MAC of the message under the key. The
        message may lie in the buffer that receives the MAC. */
    method Compute(dst: array<bv8>, key: array<bv8>, keyLen: nat, data: array<bv8>, off: nat, len: nat)
      requires Shape() && dst.Length >= 32 && keyLen <= key.Length && off + len <= data.Length
      requires keyLen < 0x1_0000_0000 && len < 0x1_0000_0000
      requires dst !in Storage() && key !in Storage() && data !in Storage()
      modifies Storage(), dst
      ensures dst[..32] == Mac(old(key[..keyLen]), old(data[off..off + len])) && dst[32..] == old(dst[32..])
    {
      hide Hash, KeyBlock, XorPad;
      ghost var k, msg := key[..keyLen], data[off..off + len];
      SetKey(key, keyLen);
      ghost var kb := keyBlock[..];
      XorKey(ipad, 0x36);
      XorKey(opad, 0x5c);
      ghost var op := opad[..];
      assert data[off..off + len] == msg;
      InnerHash(data, off, len);
      assert opad[..] == op;
      OuterHash(dst);
    }
  }

  /** The original code: its locals are storage that nothing has used before. */
  method ComputeFresh(dst: array<bv8>, key: array<bv8>, keyLen: nat, data: array<bv8>, len: nat)
    requires dst.Length >= 32 && keyLen <= key.Length && len <= data.Length
    requires keyLen < 0x1_0000_0000 && len < 0x1_0000_0000
    modifies dst
    ensures dst[..32] == Mac(old(key[..keyLen]), old(data[..len])) && dst[32..] == old(dst[32..])
  {
    hide Mac;
    ghost var msg := data[..len];
    var locals := new HmacStatics();
    assert data[0..len] == msg;
    locals.Compute(dst, key, keyLen, data, 0, len);
  }
}
