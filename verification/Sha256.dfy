/** SHA-256 (FIPS 180-4): compression, padding and the hash of a message. */
module Sha256 {
  import ByteNumbers
  import opened Arith

  const WORD64: nat := 0x1_0000_0000_0000_0000

  // ---- word functions, in the forms of HACL's code ----

  function BigSigma0(a: bv32): bv32 {
    ((a >> 2) | (a << 30)) ^ (((a >> 13) | (a << 19)) ^ ((a >> 22) | (a << 10)))
  }

  function BigSigma1(e: bv32): bv32 {
    ((e >> 6) | (e << 26)) ^ (((e >> 11) | (e << 21)) ^ ((e >> 25) | (e << 7)))
  }

  function SmallSigma0(x: bv32): bv32 {
    ((x >> 7) | (x << 25)) ^ (((x >> 18) | (x << 14)) ^ (x >> 3))
  }

  function SmallSigma1(x: bv32): bv32 {
    ((x >> 17) | (x << 15)) ^ (((x >> 19) | (x << 13)) ^ (x >> 10))
  }

  function Choice(e: bv32, f: bv32, g: bv32): bv32 { (e & f) ^ (!e & g) }

  function Majority(a: bv32, b: bv32, c: bv32): bv32 { (a & b) ^ ((a & c) ^ (b & c)) }

  /** Addition modulo 2^32. */
  function Plus(x: bv32, y: bv32): bv32 { x + y }

  function Sum5(h: bv32, s: bv32, c: bv32, k: bv32, w: bv32): bv32 { h + s + c + k + w }

  function Sum4(s1: bv32, w7: bv32, s0: bv32, w16: bv32): bv32 { s1 + w7 + s0 + w16 }

  /** The round constants, in rows of eight. */
  const KTABLE: seq<seq<bv32>> := [
    [0x428a2f98, 0x71374491, 0xb5c0fbcf, 0xe9b5dba5, 0x3956c25b, 0x59f111f1, 0x923f82a4, 0xab1c5ed5],
    [0xd807aa98, 0x12835b01, 0x243185be, 0x550c7dc3, 0x72be5d74, 0x80deb1fe, 0x9bdc06a7, 0xc19bf174],
    [0xe49b69c1, 0xefbe4786, 0x0fc19dc6, 0x240ca1cc, 0x2de92c6f, 0x4a7484aa, 0x5cb0a9dc, 0x76f988da],
    [0x983e5152, 0xa831c66d, 0xb00327c8, 0xbf597fc7, 0xc6e00bf3, 0xd5a79147, 0x06ca6351, 0x14292967],
    [0x27b70a85, 0x2e1b2138, 0x4d2c6dfc, 0x53380d13, 0x650a7354, 0x766a0abb, 0x81c2c92e, 0x92722c85],
    [0xa2bfe8a1, 0xa81a664b, 0xc24b8b70, 0xc76c51a3, 0xd192e819, 0xd6990624, 0xf40e3585, 0x106aa070],
    [0x19a4c116, 0x1e376c08, 0x2748774c, 0x34b0bcb5, 0x391c0cb3, 0x4ed8aa4a, 0x5b9cca4f, 0x682e6ff3],
    [0x748f82ee, 0x78a5636f, 0x84c87814, 0x8cc70208, 0x90befffa, 0xa4506ceb, 0xbef9a3f7, 0xc67178f2]
  ]

  const H0: seq<bv32> := [
    0x6a09e667, 0xbb67ae85, 0x3c6ef372, 0xa54ff53a, 0x510e527f, 0x9b05688c, 0x1f83d9ab, 0x5be0cd19
  ]

  lemma TableSizes()
    ensures Rows(KTABLE) && |H0| == 8
  {
  }

  /** Eight rows of eight words. */
  predicate Rows(t: seq<seq<bv32>>) {
    && |t| == 8 && |t[0]| == 8 && |t[1]| == 8 && |t[2]| == 8 && |t[3]| == 8
    && |t[4]| == 8 && |t[5]| == 8 && |t[6]| == 8 && |t[7]| == 8
  }

  /** Round constant i. */
  function K(i: nat): bv32
    requires i < 64
  {
    TableSizes();
    KTABLE[i / 8][i % 8]
  }

  // ---- compression ----

  datatype Regs = Regs(a: bv32, b: bv32, c: bv32, d: bv32, e: bv32, f: bv32, g: bv32, h: bv32)

  function Round(r: Regs, k: bv32, w: bv32): Regs {
    var t1 := Sum5(r.h, BigSigma1(r.e), Choice(r.e, r.f, r.g), k, w);
    var t2 := Plus(BigSigma0(r.a), Majority(r.a, r.b, r.c));
    Regs(Plus(t1, t2), r.a, r.b, r.c, Plus(r.d, t1), r.e, r.f, r.g)
  }

  /** Word t of the message schedule. */
  function Schedule(m: seq<bv32>, t: nat): bv32
    requires |m| == 16
  {
    if t < 16 then m[t]
    else
      Sum4(SmallSigma1(Schedule(m, t - 2)), Schedule(m, t - 7), SmallSigma0(Schedule(m, t - 15)), Schedule(m, t - 16))
  }

  /** The registers after n rounds. */
  function Rounds(m: seq<bv32>, r: Regs, n: nat): Regs
    requires |m| == 16 && n <= 64
  {
    if n == 0 then r else Round(Rounds(m, r, n - 1), K(n - 1), Schedule(m, n - 1))
  }

  /** Big-endian reading of the word at `p`. */
  function Word(s: seq<bv8>, p: nat): bv32
    requires p + 4 <= |s|
  {
    (s[p] as bv32 << 24) | (s[p + 1] as bv32 << 16) | (s[p + 2] as bv32 << 8) | s[p + 3] as bv32
  }

  lemma SameWord(s: seq<bv8>, p: nat, t: seq<bv8>)
    requires p + 4 <= |s| && t == s[p..p + 4]
    ensures Word(s, p) == Word(t, 0)
  {
    assert t[0] == s[p] && t[1] == s[p + 1] && t[2] == s[p + 2] && t[3] == s[p + 3];
  }

  function Words(block: seq<bv8>): (m: seq<bv32>)
    requires |block| == 64
    ensures |m| == 16
  {
    seq(16, i requires 0 <= i < 16 => Word(block, 4 * i))
  }

  function Load(s: seq<bv32>): Regs
    requires |s| == 8
  {
    Regs(s[0], s[1], s[2], s[3], s[4], s[5], s[6], s[7])
  }

  /** Register i, in the order of the state words. */
  function Reg(r: Regs, i: nat): bv32
    requires i < 8
  {
    match i
    case 0 => r.a
    case 1 => r.b
    case 2 => r.c
    case 3 => r.d
    case 4 => r.e
    case 5 => r.f
    case 6 => r.g
    case _ => r.h
  }

  function AddTo(s: seq<bv32>, r: Regs): (t: seq<bv32>)
    requires |s| == 8
    ensures |t| == 8
  {
    seq(8, i requires 0 <= i < 8 => Plus(s[i], Reg(r, i)))
  }

  lemma EightEqual(s: seq<bv32>, t: seq<bv32>)
    requires |s| == |t| == 8
    requires s[0] == t[0] && s[1] == t[1] && s[2] == t[2] && s[3] == t[3]
    requires s[4] == t[4] && s[5] == t[5] && s[6] == t[6] && s[7] == t[7]
    ensures s == t
  {
  }

  function Compress(s: seq<bv32>, block: seq<bv8>): (t: seq<bv32>)
    requires |s| == 8 && |block| == 64
    ensures |t| == 8
  {
    AddTo(s, Rounds(Words(block), Load(s), 64))
  }

  /** Compresses whole blocks, first to last. */
  function Blocks(s: seq<bv32>, data: seq<bv8>): (t: seq<bv32>)
    requires |s| == 8 && |data| % 64 == 0
    ensures |t| == 8
  {
    if data == [] then s else Compress(Blocks(s, data[..|data| - 64]), data[|data| - 64..])
  }

  lemma {:induction false} BlocksConcat(s: seq<bv32>, x: seq<bv8>, y: seq<bv8>)
    requires |s| == 8 && |x| % 64 == 0 && |y| % 64 == 0
    ensures Blocks(s, x + y) == Blocks(Blocks(s, x), y)
    decreases |y|
  {
    hide Compress;
    if y == [] {
      assert x + y == x;
    } else {
      var n := |y| - 64;
      assert (x + y)[..|x| + n] == x + y[..n];
      assert (x + y)[|x| + n..] == y[n..];
      BlocksConcat(s, x, y[..n]);
    }
  }

  lemma BlocksOne(s: seq<bv32>, block: seq<bv8>)
    requires |s| == 8 && |block| == 64
    ensures Blocks(s, block) == Compress(s, block)
  {
    hide Compress;
    assert block[..0] == [] && block[0..] == block;
  }

  // ---- padding and the hash ----

  /** Byte k of a number, counting from the least significant. */
  function ByteAt(n: nat, k: nat): bv8
    decreases k
  {
    if k == 0 then (n % 256) as bv8 else ByteAt(n / 256, k - 1)
  }

  /** The message length in bits as a 64-bit big-endian number. */
  function LengthField(n: nat): (r: seq<bv8>)
    ensures |r| == 8
  {
    seq(8, i requires 0 <= i < 8 => ByteAt(8 * n, 7 - i))
  }

  lemma {:induction false} ByteAtMod(x: nat, m: nat, k: nat)
    requires k < m
    ensures Pow2(8 * m) > 0 && ByteAt(x % Pow2(8 * m), k) == ByteAt(x, k)
    decreases k
  {
    hide Pow2;
    Pow2Add(8, 8 * (m - 1));
    var p := Pow2(8 * (m - 1));
    assert Pow2(8) == 256 by { Pow2At8(); }
    assert 8 * m == 8 + 8 * (m - 1);
    DigitOfMod(x, p);
    if k > 0 { ByteAtMod(x / 256, m - 1, k - 1); }
  }

  lemma Pow2At8()
    ensures Pow2(8) == 256
  {
  }

  lemma DigitOfMod(x: nat, p: nat)
    requires p > 0
    ensures (x % (256 * p)) % 256 == x % 256 && (x % (256 * p)) / 256 == (x / 256) % p
  {
    var q, r := (x / 256) / p, (x / 256) % p;
    assert x / 256 == p * q + r;
    assert x == 256 * (p * q + r) + x % 256;
    assert 256 * (p * q) == (256 * p) * q;
    assert 0 <= 256 * r + x % 256 < 256 * p;
    DivModUnique(x, 256 * p, q, 256 * r + x % 256);
    DivModUnique(256 * r + x % 256, 256, r, x % 256);
  }

  lemma LengthFieldIs(n: nat, bits: nat)
    requires bits == (8 * n) % WORD64
    ensures forall k :: 0 <= k < 8 ==> LengthField(n)[k] == ByteAt(bits, 7 - k)
  {
    hide ByteAt;
    forall k | 0 <= k < 8 ensures LengthField(n)[k] == ByteAt(bits, 7 - k) {
      ByteAtMod(8 * n, 8, 7 - k);
      Pow2At64();
    }
  }

  /** The number that bytes spell, most significant first. */
  function Number(s: seq<bv8>): nat {
    if s == [] then 0 else 256 * Number(s[..|s| - 1]) + s[|s| - 1] as nat
  }

  function BigEndian(x: nat, m: nat): (r: seq<bv8>)
    ensures |r| == m
  {
    seq(m, i requires 0 <= i < m => ByteAt(x, m - 1 - i))
  }

  lemma BigEndianStep(x: nat, m: nat)
    requires m > 0
    ensures BigEndian(x, m)[..m - 1] == BigEndian(x / 256, m - 1)
    ensures BigEndian(x, m)[m - 1] as nat == x % 256
  {
    var b := BigEndian(x, m);
    forall i | 0 <= i < m - 1 ensures b[i] == BigEndian(x / 256, m - 1)[i] {
      assert b[i] == ByteAt(x, m - 1 - i) == ByteAt(x / 256, m - 2 - i);
    }
    LastByte(x);
    assert b[m - 1] == ByteAt(x, 0);
  }

  lemma LastByte(x: nat)
    ensures ByteAt(x, 0) as nat == x % 256
  {
    ByteNumbers.NumberByte(x % 256);
    assert ByteAt(x, 0) == (x % 256) as bv8;
  }

  lemma {:induction false} BigEndianNumber(x: nat, m: nat)
    ensures Pow2(8 * m) > 0 && Number(BigEndian(x, m)) == x % Pow2(8 * m)
  {
    hide Pow2, BigEndian, ByteAt;
    if m == 0 {
      Pow2At0();
    } else {
      var p, b := Pow2(8 * (m - 1)), BigEndian(x, m);
      assert 8 * m == 8 + 8 * (m - 1);
      Pow2Add(8, 8 * (m - 1));
      Pow2At8();
      BigEndianNumber(x / 256, m - 1);
      BigEndianStep(x, m);
      DigitOfMod(x, p);
      var d := x % (256 * p);
      assert Number(b) == 256 * Number(b[..m - 1]) + b[m - 1] as nat;
      assert d == 256 * (d / 256) + d % 256;
    }
  }

  lemma Pow2At0()
    ensures Pow2(0) == 1
  {
  }

  /** The length field spells the number of bits modulo 2^64. */
  lemma LengthFieldNumber(n: nat)
    ensures Number(LengthField(n)) == (8 * n) % WORD64
  {
    hide Number, Pow2;
    assert LengthField(n) == BigEndian(8 * n, 8);
    BigEndianNumber(8 * n, 8);
    Pow2At64();
  }

  function Zeros(n: nat): (r: seq<bv8>)
    ensures |r| == n && forall i :: 0 <= i < n ==> r[i] == 0
  {
    seq(n, _ => 0)
  }

  /** The number of zero bytes that make the message, 0x80 and the length field whole blocks. */
  function ZeroCount(n: nat): (k: nat)
    ensures k < 64 && (n + 9 + k) % 64 == 0
  {
    (128 - (9 + n % 64)) % 64
  }

  function Padding(n: nat): (r: seq<bv8>)
    ensures |r| == 9 + ZeroCount(n)
  {
    [0x80] + Zeros(ZeroCount(n)) + LengthField(n)
  }

  /** Byte i of the words, big-endian. */
  function DigestByte(s: seq<bv32>, i: nat): bv8
    requires i / 4 < |s|
  {
    ByteOfWord(s[i / 4], i % 4)
  }

  /** Byte k of a word, counting from the most significant. */
  function ByteOfWord(w: bv32, k: nat): bv8 {
    if k == 0 then ((w >> 24) & 0xff) as bv8
    else if k == 1 then ((w >> 16) & 0xff) as bv8
    else if k == 2 then ((w >> 8) & 0xff) as bv8
    else (w & 0xff) as bv8
  }

  function Digest(s: seq<bv32>): (r: seq<bv8>)
    requires |s| == 8
    ensures |r| == 32
  {
    seq(32, i requires 0 <= i < 32 => DigestByte(s, i))
  }

  /** The SHA-256 hash of a message (its length counted modulo 2^64 bits). */
  function Hash(msg: seq<bv8>): (r: seq<bv8>)
    ensures |r| == 32
  {
    TableSizes();
    Digest(Blocks(H0, msg + Padding(|msg|)))
  }
}
