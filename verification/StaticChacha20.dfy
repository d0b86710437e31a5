/** The annotated ChaCha20: working arrays are static storage that is never cleared between calls. */
module StaticChacha20 {
  import opened Arith
  import opened Chacha20

  const CONSTANTS: seq<bv32> := [0x61707865, 0x3320646e, 0x79622d32, 0x6b206574]

  /** The little-endian word at `p`. */
  function WordAt(s: seq<bv8>, p: nat): bv32
    requires p + 4 <= |s|
  {
    LoadLe(s[p], s[p + 1], s[p + 2], s[p + 3])
  }

  /** The initial state: constants, key, counter, nonce (section 2.3 of RFC 8439). */
  function InitialState(key: seq<bv8>, nonce: seq<bv8>, ctr: bv32): (s: seq<bv32>)
    requires |key| == 32 && |nonce| == 12
    ensures |s| == 16
  {
    seq(16, i requires 0 <= i < 16 =>
      if i < 4 then CONSTANTS[i]
      else if i < 12 then WordAt(key, 4 * (i - 4))
      else if i == 12 then ctr
      else WordAt(nonce, 4 * (i - 13)))
  }

  /** chacha20_init: every word of the state is stored, so nothing of an earlier one survives. */
  method Init(ctx: array<bv32>, k: array<bv8>, n: array<bv8>, ctr: bv32)
    requires ctx.Length == 16 && k.Length == 32 && n.Length == 12
    modifies ctx
    ensures ctx[..] == InitialState(k[..], n[..], ctr)
  {
    hide LoadLe, CONSTANTS, WordAt;
    ghost var s := InitialState(k[..], n[..], ctr);
    InitialWords(k[..], n[..], ctr);
    var i := 0;
    while i < 4
      invariant 0 <= i <= 4 && forall j :: 0 <= j < i ==> ctx[j] == s[j]
    {
      ctx[i] := CONSTANTS[i];
      i := i + 1;
    }
    i := 0;
    while i < 8
      invariant 0 <= i <= 8 && forall j :: 0 <= j < 4 + i ==> ctx[j] == s[j]
    {
      ctx[4 + i] := LoadLe(k[4 * i], k[4 * i + 1], k[4 * i + 2], k[4 * i + 3]);
      i := i + 1;
    }
    ctx[12] := ctr;
    i := 0;
    while i < 3
      invariant 0 <= i <= 3 && forall j :: 0 <= j < 13 + i ==> ctx[j] == s[j]
    {
      ctx[13 + i] := LoadLe(n[4 * i], n[4 * i + 1], n[4 * i + 2], n[4 * i + 3]);
      i := i + 1;
    }
  }

  lemma InitialWords(k: seq<bv8>, n: seq<bv8>, ctr: bv32)
    requires |k| == 32 && |n| == 12
    ensures |CONSTANTS| == 4 && InitialState(k, n, ctr)[12] == ctr
    ensures forall i :: 0 <= i < 4 ==> InitialState(k, n, ctr)[i] == CONSTANTS[i]
    ensures forall i :: 0 <= i < 8 ==>
      InitialState(k, n, ctr)[4 + i] == LoadLe(k[4 * i], k[4 * i + 1], k[4 * i + 2], k[4 * i + 3])
    ensures forall i :: 0 <= i < 3 ==>
      InitialState(k, n, ctr)[13 + i] == LoadLe(n[4 * i], n[4 * i + 1], n[4 * i + 2], n[4 * i + 3])
  {
    hide LoadLe;
  }

  lemma TextAhead(x: seq<bv8>, t: seq<bv8>, i: nat)
    requires 64 * i + 64 <= |t| <= |x| && x[64 * i..|t|] == t[64 * i..]
    ensures x[64 * i..64 * i + 64] == t[64 * i..64 * i + 64]
  {
    PartOfPart(x, 64 * i, |t|, 0, 64);
    PartOfPart(t, 64 * i, |t|, 0, 64);
  }

  lemma TextLeft(x: seq<bv8>, x': seq<bv8>, t: seq<bv8>, i: nat)
    requires 64 * i + 64 <= |t| <= |x| == |x'| && x[64 * i..|t|] == t[64 * i..] && x'[64 * i + 64..] == x[64 * i + 64..]
    ensures x'[64 * (i + 1)..|t|] == t[64 * (i + 1)..]
  {
    var n := |t| - 64 * i;
    assert t[64 * i..|t|] == t[64 * i..] && t[64 * i + 64..|t|] == t[64 * i + 64..];
    assert x[64 * i + 64..|x|] == x[64 * i + 64..] && x'[64 * i + 64..|x|] == x'[64 * i + 64..];
    PartOfPart(x, 64 * i, |t|, 64, n);
    PartOfPart(t, 64 * i, |t|, 64, n);
    PartOfPart(x, 64 * i + 64, |x|, 0, n - 64);
    PartOfPart(x', 64 * i + 64, |x|, 0, n - 64);
  }

  /** One more block of the output; what lies behind the text stays. */
  lemma OutBlock(o: seq<bv8>, o': seq<bv8>, c: seq<bv8>, i: nat, n: nat)
    requires 64 * i + 64 <= n == |c| <= |o| == |o'|
    requires o[..64 * i] == c[..64 * i] && o'[..64 * i] == o[..64 * i]
    requires o'[64 * i..64 * i + 64] == c[64 * i..64 * i + 64] && o'[64 * i + 64..] == o[64 * i + 64..]
    ensures o'[..64 * (i + 1)] == c[..64 * (i + 1)] && o'[n..] == o[n..]
  {
    var a := 64 * i;
    assert o'[..a + 64] == o'[..a] + o'[a..a + 64];
    assert c[..a + 64] == c[..a] + c[a..a + 64];
    PartOfPart(o, a + 64, |o|, n - (a + 64), |o| - (a + 64));
    PartOfPart(o', a + 64, |o|, n - (a + 64), |o| - (a + 64));
  }

  /** The `confidential static` arrays of Hacl_Chacha20.c. No method asks anything of their contents. */
  class ChachaStatics {
    const k: array<bv32>
    const bl: array<bv32>
    const plain: array<bv8>
    const encryptCtx: array<bv32>
    const decryptCtx: array<bv32>

    ghost predicate Shape() {
      && k.Length == 16 && bl.Length == 16 && plain.Length == 64 && encryptCtx.Length == 16 && decryptCtx.Length == 16
      && k != bl && k != encryptCtx && k != decryptCtx && bl != encryptCtx && bl != decryptCtx
      && encryptCtx != decryptCtx
    }

    ghost function Storage(): set<object> { {k as object, bl, plain, encryptCtx, decryptCtx} }

    constructor ()
      ensures Shape() && fresh(Storage())
    {
      k := new bv32[16](_ => 0);
      bl := new bv32[16](_ => 0);
      plain := new bv8[64](_ => 0);
      encryptCtx := new bv32[16](_ => 0);
      decryptCtx := new bv32[16](_ => 0);
    }

    /** Loads the text into `bl` and xors the key words into it. */
    method XorWords(text: array<bv8>, textOff: nat)
      requires Shape() && textOff + 64 <= text.Length
      modifies bl
      ensures forall i :: 0 <= i < 16 ==> bl[i] == Xor32(WordAt(text[textOff..textOff + 64], 4 * i), k[i])
    {
      hide Xor32, LoadLe;
      ghost var t := text[textOff..textOff + 64];
      var i := 0;
      while i < 16
        invariant 0 <= i <= 16 && forall j :: 0 <= j < i ==> bl[j] == WordAt(t, 4 * j)
      {
        var p := textOff + 4 * i;
        assert t[4 * i..4 * i + 4] == text[p..p + 4];
        bl[i] := LoadLe(text[p], text[p + 1], text[p + 2], text[p + 3]);
        i := i + 1;
      }
      i := 0;
      while i < 16
        invariant 0 <= i <= 16 && k[..] == old(k[..]) && text[textOff..textOff + 64] == t
        invariant forall j :: 0 <= j < i ==> bl[j] == Xor32(WordAt(t, 4 * j), k[j])
        invariant forall j :: i <= j < 16 ==> bl[j] == WordAt(t, 4 * j)
      {
        bl[i] := Xor32(bl[i], k[i]);
        i := i + 1;
      }
    }

    /** Stores `bl` as 64 little-endian bytes. */
    method StoreWords(out: array<bv8>, outOff: nat, ghost t: seq<bv8>)
      requires Shape() && outOff + 64 <= out.Length && |t| == 64
      requires forall i :: 0 <= i < 16 ==> bl[i] == Xor32(WordAt(t, 4 * i), k[i])
      modifies out
      ensures out[outOff..outOff + 64] == XorBlock(t, k[..])
      ensures out[..outOff] == old(out[..outOff]) && out[outOff + 64..] == old(out[outOff + 64..])
    {
      hide Xor32, LoadLe, Byte0, Byte1, Byte2, Byte3, Xor8, XorBlock, WordAt, ByteLe;
      ghost var w := k[..];
      ghost var b := XorBlock(t, w);
      var i := 0;
      while i < 16
        invariant 0 <= i <= 16 && k[..] == w && bl[..] == old(bl[..])
        invariant out[outOff..outOff + 4 * i] == b[..4 * i]
        invariant out[..outOff] == old(out[..outOff]) && out[outOff + 64..] == old(out[outOff + 64..])
      {
        XorBlockWord(t, w, i);
        StoreWord(out, outOff + 4 * i, bl[i]);
        assert b[..4 * (i + 1)] == b[..4 * i] + b[4 * i..4 * i + 4];
        i := i + 1;
      }
    }

    /** store32_le */
    method StoreWord(out: array<bv8>, p: nat, w: bv32)
      requires p + 4 <= out.Length
      modifies out
      ensures out[..] == old(out[..p]) + [Byte0(w), Byte1(w), Byte2(w), Byte3(w)] + old(out[p + 4..])
    {
      hide Byte0, Byte1, Byte2, Byte3;
      out[p] := Byte0(w);
      out[p + 1] := Byte1(w);
      out[p + 2] := Byte2(w);
      out[p + 3] := Byte3(w);
    }

    lemma XorBlockWord(t: seq<bv8>, w: seq<bv32>, i: nat)
      requires |t| == 64 && |w| == 16 && i < 16
      ensures
        var x := Xor32(WordAt(t, 4 * i), w[i]);
        XorBlock(t, w)[4 * i..4 * i + 4] == [Byte0(x), Byte1(x), Byte2(x), Byte3(x)]
    {
      hide Xor32, LoadLe, Byte0, Byte1, Byte2, Byte3, Xor8;
      var p := 4 * i;
      assert p / 4 == i && (p + 1) / 4 == i && (p + 2) / 4 == i && (p + 3) / 4 == i;
      assert p % 4 == 0 && (p + 1) % 4 == 1 && (p + 2) % 4 == 2 && (p + 3) % 4 == 3;
      XorLoaded(t[p], t[p + 1], t[p + 2], t[p + 3], w[i]);
    }

    /** chacha20_encrypt_block; `out` and `text` may be the same place. */
    method EncryptBlock(ctx: array<bv32>, out: array<bv8>, outOff: nat, incr: nat, text: array<bv8>, textOff: nat)
      requires Shape() && ctx.Length == 16 && ctx != k && ctx != bl && incr < 0x1_0000_0000
      requires outOff + 64 <= out.Length && textOff + 64 <= text.Length
      modifies k, bl, out
      ensures out[outOff..outOff + 64] == XorBlock(old(text[textOff..textOff + 64]), KeyBlock(ctx[..], incr))
      ensures out[..outOff] == old(out[..outOff]) && out[outOff + 64..] == old(out[outOff + 64..])
    {
      hide Block, XorBlock, Xor32, WordAt;
      ghost var t, c := text[textOff..textOff + 64], ctx[..];
      Core(k, ctx, incr as bv32);
      assert text[textOff..textOff + 64] == t;
      XorWords(text, textOff);
      StoreWords(out, outOff, t);
      assert ctx[..] == c;
    }

    /** chacha20_encrypt_last: only `len` bytes of the stale `plain` are refreshed, and only those used. */
    method EncryptLast(ctx: array<bv32>, len: nat, out: array<bv8>, outOff: nat, incr: nat, text: array<bv8>,
                       textOff: nat)
      requires Shape() && ctx.Length == 16 && ctx != k && ctx != bl && incr < 0x1_0000_0000
      requires len <= 64 && outOff + len <= out.Length && textOff + len <= text.Length && out != plain && text != plain
      modifies k, bl, plain, out
      ensures out[outOff..outOff + len]
        == XorBlock(old(text[textOff..textOff + len]) + old(plain[len..]), KeyBlock(ctx[..], incr))[..len]
      ensures out[..outOff] == old(out[..outOff]) && out[outOff + len..] == old(out[outOff + len..])
    {
      hide KeyBlock, XorBlock;
      ghost var t, c, stale := text[textOff..textOff + len], ctx[..], plain[len..];
      forall j | 0 <= j < len { plain[j] := text[textOff + j]; }
      ghost var block := plain[..];
      assert block == t + stale && plain[0..0 + 64] == block;
      EncryptBlock(ctx, plain, 0, incr, plain, 0);
      assert ctx[..] == c && plain[0..0 + 64] == XorBlock(t + stale, KeyBlock(c, incr));
      ghost var front := plain[..len];
      assert front == plain[0..0 + 64][..len];
      forall j | 0 <= j < len { out[outOff + j] := plain[j]; }
      assert out[outOff..outOff + len] == front && ctx[..] == c;
    }

    /** One whole block of the text. */
    method FullBlock(ctx: array<bv32>, out: array<bv8>, i: nat, text: array<bv8>, ghost t: seq<bv8>)
      requires Shape() && ctx.Length == 16 && ctx != k && ctx != bl && 64 * i + 64 <= |t| < 0x1_0000_0000
      requires |t| <= out.Length && |t| <= text.Length && text[64 * i..|t|] == t[64 * i..]
      requires out[..64 * i] == Cipher(ctx[..], t)[..64 * i]
      modifies k, bl, out
      ensures text[64 * (i + 1)..|t|] == t[64 * (i + 1)..] && out[|t|..] == old(out[|t|..])
      ensures out[..64 * (i + 1)] == Cipher(ctx[..], t)[..64 * (i + 1)]
    {
      hide KeyBlock, XorBlock, Cipher;
      ghost var c, o, block, x := ctx[..], out[..], t[64 * i..64 * i + 64], text[..];
      TextAhead(x, t, i);
      CipherBlock(c, t, i, block, 64);
      EncryptBlock(ctx, out, 64 * i, i, text, 64 * i);
      TextLeft(x, text[..], t, i);
      OutBlock(o, out[..], Cipher(c, t), i, |t|);
    }

    /** What is left of the text after its whole blocks. */
    method LastPart(ctx: array<bv32>, out: array<bv8>, nb: nat, rem: nat, text: array<bv8>, ghost t: seq<bv8>)
      requires Shape() && ctx.Length == 16 && ctx != k && ctx != bl && 64 * nb + rem == |t| < 0x1_0000_0000 && rem < 64
      requires |t| <= out.Length && |t| <= text.Length && text[64 * nb..|t|] == t[64 * nb..]
      requires out != plain && text != plain && out[..64 * nb] == Cipher(ctx[..], t)[..64 * nb]
      modifies k, bl, plain, out
      ensures out[..|t|] == Cipher(ctx[..], t) && out[|t|..] == old(out[|t|..])
    {
      hide KeyBlock, XorBlock, Cipher;
      ghost var c, o, block := ctx[..], out[..], t[64 * nb..] + plain[rem..];
      assert block[..rem] == t[64 * nb..64 * nb + rem];
      assert text[64 * nb..64 * nb + rem] == t[64 * nb..];
      CipherBlock(c, t, nb, block, rem);
      EncryptLast(ctx, rem, out, 64 * nb, nb, text, 64 * nb);
      assert ctx[..] == c && out[..|t|] == o[..64 * nb] + out[64 * nb..64 * nb + rem];
    }

    /** chacha20_update: the cipher of the whole text, whatever the storage held. */
    method Update(ctx: array<bv32>, len: nat, out: array<bv8>, text: array<bv8>)
      requires Shape() && ctx.Length == 16 && ctx != k && ctx != bl && len < 0x1_0000_0000
      requires len <= out.Length && len <= text.Length && out != plain && text != plain
      modifies k, bl, plain, out
      ensures out[..len] == Cipher(ctx[..], old(text[..len])) && out[len..] == old(out[len..])
    {
      hide KeyBlock, XorBlock, Cipher;
      ghost var c, t := ctx[..], text[..len];
      var rem := len % 64;
      var nb := len / 64;
      var i := 0;
      assert text[0..len] == t && out[..0] == Cipher(c, t)[..0];
      while i < nb
        invariant 0 <= i <= nb && ctx[..] == c && text[64 * i..len] == t[64 * i..]
        invariant out[..64 * i] == Cipher(c, t)[..64 * i] && out[len..] == old(out[len..])
      {
        FullBlock(ctx, out, i, text, t);
        i := i + 1;
      }
      if rem > 0 {
        LastPart(ctx, out, nb, rem, text, t);
      }
    }

    /** chacha20_encrypt */
    method Encrypt(len: nat, out: array<bv8>, text: array<bv8>, key: array<bv8>, n: array<bv8>, ctr: bv32)
      requires Shape() && len <= out.Length && len <= text.Length && len < 0x1_0000_0000
      requires key.Length == 32 && n.Length == 12 && out !in Storage() && text !in Storage()
      modifies Storage(), out
      ensures out[..len] == Cipher(InitialState(old(key[..]), old(n[..]), ctr), old(text[..len]))
        && out[len..] == old(out[len..])
    {
      hide InitialState, Cipher;
      ghost var t := text[..len];
      Init(encryptCtx, key, n, ctr);
      assert text[..len] == t;
      Update(encryptCtx, len, out, text);
    }

    /** chacha20_decrypt */
    method Decrypt(len: nat, out: array<bv8>, cipher: array<bv8>, key: array<bv8>, n: array<bv8>, ctr: bv32)
      requires Shape() && len <= out.Length && len <= cipher.Length && len < 0x1_0000_0000
      requires key.Length == 32 && n.Length == 12 && out !in Storage() && cipher !in Storage()
      modifies Storage(), out
      ensures out[..len] == Cipher(InitialState(old(key[..]), old(n[..]), ctr), old(cipher[..len]))
        && out[len..] == old(out[len..])
    {
      hide InitialState, Cipher;
      ghost var t := cipher[..len];
      Init(decryptCtx, key, n, ctr);
      assert cipher[..len] == t;
      Update(decryptCtx, len, out, cipher);
    }
  }

  /** The original encryption: fresh locals for every call. */
  method EncryptFresh(len: nat, out: array<bv8>, text: array<bv8>, key: array<bv8>, n: array<bv8>, ctr: bv32)
    requires len <= out.Length && len <= text.Length && len < 0x1_0000_0000 && key.Length == 32 && n.Length == 12
    modifies out
    ensures out[..len] == Cipher(InitialState(old(key[..]), old(n[..]), ctr), old(text[..len]))
      && out[len..] == old(out[len..])
  {
    hide InitialState, Cipher;
    var locals := new ChachaStatics();
    locals.Encrypt(len, out, text, key, n, ctr);
  }

  /** The benchmark: encrypting and then decrypting, over the same storage, restores the input. */
  method Benchmark(statics: ChachaStatics, len: nat, ciphertext: array<bv8>, decrypted: array<bv8>, input: array<bv8>,
                   key: array<bv8>, nonce: array<bv8>)
    requires statics.Shape() && len == input.Length == ciphertext.Length == decrypted.Length < 0x1_0000_0000
    requires key.Length == 32 && nonce.Length == 12 && ciphertext != decrypted && input != ciphertext
      && input != decrypted
    requires ciphertext !in statics.Storage() && decrypted !in statics.Storage() && input !in statics.Storage()
    requires key !in statics.Storage() && nonce !in statics.Storage()
    requires key != ciphertext && nonce != ciphertext
    modifies statics.Storage(), ciphertext, decrypted
    ensures decrypted[..] == input[..] == old(input[..])
  {
    hide InitialState, Cipher;
    ghost var k, n, t := key[..], nonce[..], input[..];
    statics.Encrypt(len, ciphertext, input, key, nonce, 0);
    assert ciphertext[..len] == ciphertext[..] && input[..len] == t;
    assert key[..] == k && nonce[..] == n;
    statics.Decrypt(len, decrypted, ciphertext, key, nonce, 0);
    CipherTwice(InitialState(k, n, 0), t);
    assert decrypted[..] == decrypted[..len];
  }
}
