/** ChaCha20 (RFC 8439): the block function, the key stream and the cipher. */
module Chacha20 {

  // ---- words ----

  function Add(x: bv32, y: bv32): bv32 { x + y }

  function Mix16(d: bv32, a: bv32): bv32 { ((d ^ a) << 16) | ((d ^ a) >> 16) }

  function Mix12(b: bv32, c: bv32): bv32 { ((b ^ c) << 12) | ((b ^ c) >> 20) }

  function Mix8(d: bv32, a: bv32): bv32 { ((d ^ a) << 8) | ((d ^ a) >> 24) }

  function Mix7(b: bv32, c: bv32): bv32 { ((b ^ c) << 7) | ((b ^ c) >> 25) }

  lemma AddAssoc(x: bv32, y: bv32, z: bv32)
    ensures Add(Add(x, y), z) == Add(x, Add(y, z))
  {
    assert Add(Add(x, y), z) == Add(x + y, z);
    assert Add(x, Add(y, z)) == Add(x, y + z);
    assert Add(x + y, z) == Add(x, y + z);
  }

  // ---- the block function ----

  datatype Quad = Quad(a: bv32, b: bv32, c: bv32, d: bv32)

  /** The quarter round (section 2.1 of RFC 8439). */
  function Quarter(a: bv32, b: bv32, c: bv32, d: bv32): Quad {
    var a1 := Add(a, b);
    var d1 := Mix16(d, a1);
    var c1 := Add(c, d1);
    var b1 := Mix12(b, c1);
    var a2 := Add(a1, b1);
    var d2 := Mix8(d1, a2);
    var c2 := Add(c1, d2);
    Quad(a2, Mix7(b1, c2), c2, d2)
  }

  /** The quarter round on words a, b, c, d of the state. */
  function QuarterRound(s: seq<bv32>, a: nat, b: nat, c: nat, d: nat): (r: seq<bv32>)
    requires |s| == 16 && a < 16 && b < 16 && c < 16 && d < 16
    ensures |r| == 16
  {
    var q := Quarter(s[a], s[b], s[c], s[d]);
    s[a := q.a][b := q.b][c := q.c][d := q.d]
  }

  /** Four column rounds and four diagonal rounds. */
  function DoubleRound(s: seq<bv32>): (r: seq<bv32>)
    requires |s| == 16
    ensures |r| == 16
  {
    var s1 := QuarterRound(s, 0, 4, 8, 12);
    var s2 := QuarterRound(s1, 1, 5, 9, 13);
    var s3 := QuarterRound(s2, 2, 6, 10, 14);
    var s4 := QuarterRound(s3, 3, 7, 11, 15);
    var s5 := QuarterRound(s4, 0, 5, 10, 15);
    var s6 := QuarterRound(s5, 1, 6, 11, 12);
    var s7 := QuarterRound(s6, 2, 7, 8, 13);
    QuarterRound(s7, 3, 4, 9, 14)
  }

  function DoubleRounds(s: seq<bv32>, n: nat): (r: seq<bv32>)
    requires |s| == 16
    ensures |r| == 16
  {
    if n == 0 then s else DoubleRound(DoubleRounds(s, n - 1))
  }

  /** The state with its block counter advanced. */
  function Advance(ctx: seq<bv32>, ctr: bv32): (s: seq<bv32>)
    requires |ctx| == 16
    ensures |s| == 16
  {
    ctx[12 := Add(ctx[12], ctr)]
  }

  /** The block function of RFC 8439: the state after twenty rounds, added to the state before. */
  function Block(s: seq<bv32>): (r: seq<bv32>)
    requires |s| == 16
    ensures |r| == 16
  {
    seq(16, i requires 0 <= i < 16 => Add(DoubleRounds(s, 10)[i], s[i]))
  }

  // ---- bytes ----

  function LoadLe(b0: bv8, b1: bv8, b2: bv8, b3: bv8): bv32 {
    b0 as bv32 | (b1 as bv32 << 8) | (b2 as bv32 << 16) | (b3 as bv32 << 24)
  }

  function Byte0(w: bv32): bv8 { (w & 0xff) as bv8 }

  function Byte1(w: bv32): bv8 { ((w >> 8) & 0xff) as bv8 }

  function Byte2(w: bv32): bv8 { ((w >> 16) & 0xff) as bv8 }

  function Byte3(w: bv32): bv8 { ((w >> 24) & 0xff) as bv8 }

  function Xor32(x: bv32, y: bv32): bv32 { x ^ y }

  function Xor8(x: bv8, y: bv8): bv8 { x ^ y }

  lemma LoadedBytes(b0: bv8, b1: bv8, b2: bv8, b3: bv8)
    ensures Byte0(LoadLe(b0, b1, b2, b3)) == b0 && Byte1(LoadLe(b0, b1, b2, b3)) == b1
    ensures Byte2(LoadLe(b0, b1, b2, b3)) == b2 && Byte3(LoadLe(b0, b1, b2, b3)) == b3
  {
  }

  lemma XorByte0(x: bv32, y: bv32)
    ensures Byte0(Xor32(x, y)) == Xor8(Byte0(x), Byte0(y))
  {
    assert ((x ^ y) & 0xff) as bv8 == (x & 0xff) as bv8 ^ (y & 0xff) as bv8;
    assert Byte0(Xor32(x, y)) == Byte0(x ^ y);
    assert Xor8(Byte0(x), Byte0(y)) == Xor8((x & 0xff) as bv8, (y & 0xff) as bv8);
  }

  lemma XorByte1(x: bv32, y: bv32)
    ensures Byte1(Xor32(x, y)) == Xor8(Byte1(x), Byte1(y))
  {
    assert (((x ^ y) >> 8) & 0xff) as bv8 == ((x >> 8) & 0xff) as bv8 ^ ((y >> 8) & 0xff) as bv8;
    assert Byte1(Xor32(x, y)) == Byte1(x ^ y);
    assert Xor8(Byte1(x), Byte1(y)) == Xor8(((x >> 8) & 0xff) as bv8, ((y >> 8) & 0xff) as bv8);
  }

  lemma XorByte2(x: bv32, y: bv32)
    ensures Byte2(Xor32(x, y)) == Xor8(Byte2(x), Byte2(y))
  {
    assert (((x ^ y) >> 16) & 0xff) as bv8 == ((x >> 16) & 0xff) as bv8 ^ ((y >> 16) & 0xff) as bv8;
    assert Byte2(Xor32(x, y)) == Byte2(x ^ y);
    assert Xor8(Byte2(x), Byte2(y)) == Xor8(((x >> 16) & 0xff) as bv8, ((y >> 16) & 0xff) as bv8);
  }

  lemma XorByte3(x: bv32, y: bv32)
    ensures Byte3(Xor32(x, y)) == Xor8(Byte3(x), Byte3(y))
  {
    assert (((x ^ y) >> 24) & 0xff) as bv8 == ((x >> 24) & 0xff) as bv8 ^ ((y >> 24) & 0xff) as bv8;
    assert Byte3(Xor32(x, y)) == Byte3(x ^ y);
    assert Xor8(Byte3(x), Byte3(y)) == Xor8(((x >> 24) & 0xff) as bv8, ((y >> 24) & 0xff) as bv8);
  }

  lemma XorTwice(x: bv8, y: bv8)
    ensures Xor8(Xor8(x, y), y) == x
  {
  }

  /** Byte i of a word, least significant first. */
  function ByteLe(w: bv32, i: nat): bv8 {
    if i == 0 then Byte0(w) else if i == 1 then Byte1(w) else if i == 2 then Byte2(w) else Byte3(w)
  }

  /** Four bytes of text xored with a key word: loading, xoring and storing words is xoring bytes. */
  lemma XorLoaded(b0: bv8, b1: bv8, b2: bv8, b3: bv8, k: bv32)
    ensures
      var w := Xor32(LoadLe(b0, b1, b2, b3), k);
      && Byte0(w) == Xor8(b0, Byte0(k)) && Byte1(w) == Xor8(b1, Byte1(k))
      && Byte2(w) == Xor8(b2, Byte2(k)) && Byte3(w) == Xor8(b3, Byte3(k))
  {
    hide Byte0, Byte1, Byte2, Byte3, Xor32, LoadLe, Xor8;
    LoadedBytes(b0, b1, b2, b3);
    XorByte0(LoadLe(b0, b1, b2, b3), k);
    XorByte1(LoadLe(b0, b1, b2, b3), k);
    XorByte2(LoadLe(b0, b1, b2, b3), k);
    XorByte3(LoadLe(b0, b1, b2, b3), k);
  }

  // ---- the cipher ----

  /** The words of key stream block n. */
  function KeyBlock(ctx: seq<bv32>, n: nat): (r: seq<bv32>)
    requires |ctx| == 16
    ensures |r| == 16
  {
    Block(Advance(ctx, (n % 0x1_0000_0000) as bv32))
  }

  /** Byte j of the key stream. */
  function KeyByte(ctx: seq<bv32>, j: nat): bv8
    requires |ctx| == 16
  {
    ByteLe(KeyBlock(ctx, j / 64)[j % 64 / 4], j % 4)
  }

  function Cipher(ctx: seq<bv32>, text: seq<bv8>): (r: seq<bv8>)
    requires |ctx| == 16
    ensures |r| == |text|
  {
    seq(|text|, j requires 0 <= j < |text| => Xor8(text[j], KeyByte(ctx, j)))
  }

  /** Decryption is encryption. */
  lemma CipherTwice(ctx: seq<bv32>, text: seq<bv8>)
    requires |ctx| == 16
    ensures Cipher(ctx, Cipher(ctx, text)) == text
  {
    hide Xor8, KeyByte;
    forall j | 0 <= j < |text| ensures Cipher(ctx, Cipher(ctx, text))[j] == text[j] {
      XorTwice(text[j], KeyByte(ctx, j));
    }
  }

  function XorBlock(text: seq<bv8>, w: seq<bv32>): (r: seq<bv8>)
    requires |text| == 64 && |w| == 16
    ensures |r| == 64
  {
    seq(64, j requires 0 <= j < 64 => Xor8(text[j], ByteLe(w[j / 4], j % 4)))
  }

  /** The cipher works block by block, also on a last block that is cut off. */
  lemma CipherBlock(ctx: seq<bv32>, text: seq<bv8>, i: nat, block: seq<bv8>, len: nat)
    requires |ctx| == 16 && len <= 64 && 64 * i + len <= |text| && |block| == 64
    requires block[..len] == text[64 * i..64 * i + len]
    ensures XorBlock(block, KeyBlock(ctx, i))[..len] == Cipher(ctx, text)[64 * i..64 * i + len]
  {
    hide XorBlock, Cipher, KeyBlock;
    var x, y := XorBlock(block, KeyBlock(ctx, i)), Cipher(ctx, text);
    forall j | 0 <= j < len ensures x[j] == y[64 * i + j] {
      CipherByte(ctx, text, i, j);
      assert block[j] == block[..len][j] && text[64 * i + j] == text[64 * i..64 * i + len][j];
      XorBlockByte(block, KeyBlock(ctx, i), j);
    }
  }

  lemma XorBlockByte(text: seq<bv8>, w: seq<bv32>, j: nat)
    requires |text| == 64 && |w| == 16 && j < 64
    ensures XorBlock(text, w)[j] == Xor8(text[j], ByteLe(w[j / 4], j % 4))
  {
    hide Xor8, ByteLe;
  }

  lemma CipherByte(ctx: seq<bv32>, text: seq<bv8>, i: nat, j: nat)
    requires |ctx| == 16 && j < 64 && 64 * i + j < |text|
    ensures Cipher(ctx, text)[64 * i + j] == Xor8(text[64 * i + j], ByteLe(KeyBlock(ctx, i)[j / 4], j % 4))
  {
    hide Xor8, KeyBlock, ByteLe;
    assert (64 * i + j) / 64 == i && (64 * i + j) % 64 == j && (64 * i + j) % 4 == j % 4;
  }

  // ---- HACL's code ----

  /** The writes of a quarter round, two to each word. */
  lemma EightWrites(s: seq<bv32>, a: nat, b: nat, c: nat, d: nat, a1: bv32, d1: bv32, c1: bv32, b1: bv32, a2: bv32,
                    d2: bv32, c2: bv32, b2: bv32)
    requires |s| == 16 && a < 16 && b < 16 && c < 16 && d < 16
    requires a != b && a != c && a != d && b != c && b != d && c != d
    ensures s[a := a1][d := d1][c := c1][b := b1][a := a2][d := d2][c := c2][b := b2]
      == s[a := a2][b := b2][c := c2][d := d2]
  {
  }

  /** quarter_round */
  method QuarterRoundAt(st: array<bv32>, a: nat, b: nat, c: nat, d: nat)
    requires st.Length == 16 && a < 16 && b < 16 && c < 16 && d < 16
    requires a != b && a != c && a != d && b != c && b != d && c != d
    modifies st
    ensures st[..] == QuarterRound(old(st[..]), a, b, c, d)
  {
    hide Add, Mix16, Mix12, Mix8, Mix7;
    var sta, stb0, std0 := st[a], st[b], st[d];
    var sta10 := Add(sta, stb0);
    st[a] := sta10;
    st[d] := Mix16(std0, sta10);
    var sta0, stb1, std3 := st[c], st[d], st[b];
    var sta11 := Add(sta0, stb1);
    st[c] := sta11;
    st[b] := Mix12(std3, sta11);
    var sta2, stb2, std4 := st[a], st[b], st[d];
    var sta12 := Add(sta2, stb2);
    st[a] := sta12;
    st[d] := Mix8(std4, sta12);
    var sta3, stb, std := st[c], st[d], st[b];
    var sta1 := Add(sta3, stb);
    st[c] := sta1;
    st[b] := Mix7(std, sta1);
    EightWrites(old(st[..]), a, b, c, d, sta10, stb1, sta11, std4, sta12, stb, sta1, st[b]);
  }

  /** double_round */
  method DoubleRoundOf(st: array<bv32>)
    requires st.Length == 16
    modifies st
    ensures st[..] == DoubleRound(old(st[..]))
  {
    hide QuarterRound;
    QuarterRoundAt(st, 0, 4, 8, 12);
    QuarterRoundAt(st, 1, 5, 9, 13);
    QuarterRoundAt(st, 2, 6, 10, 14);
    QuarterRoundAt(st, 3, 7, 11, 15);
    QuarterRoundAt(st, 0, 5, 10, 15);
    QuarterRoundAt(st, 1, 6, 11, 12);
    QuarterRoundAt(st, 2, 7, 8, 13);
    QuarterRoundAt(st, 3, 4, 9, 14);
  }

  /** rounds */
  method RoundsOf(st: array<bv32>)
    requires st.Length == 16
    modifies st
    ensures st[..] == DoubleRounds(old(st[..]), 10)
  {
    hide DoubleRound;
    ghost var s := st[..];
    DoubleRoundOf(st);
    assert st[..] == DoubleRounds(s, 1);
    DoubleRoundOf(st);
    assert st[..] == DoubleRounds(s, 2);
    DoubleRoundOf(st);
    assert st[..] == DoubleRounds(s, 3);
    DoubleRoundOf(st);
    assert st[..] == DoubleRounds(s, 4);
    DoubleRoundOf(st);
    assert st[..] == DoubleRounds(s, 5);
    DoubleRoundOf(st);
    assert st[..] == DoubleRounds(s, 6);
    DoubleRoundOf(st);
    assert st[..] == DoubleRounds(s, 7);
    DoubleRoundOf(st);
    assert st[..] == DoubleRounds(s, 8);
    DoubleRoundOf(st);
    assert st[..] == DoubleRounds(s, 9);
    DoubleRoundOf(st);
    assert st[..] == DoubleRounds(s, 10);
  }

  /** chacha20_core: the state is added word by word, the counter once more by itself. */
  method Core(k: array<bv32>, ctx: array<bv32>, ctr: bv32)
    requires k.Length == 16 && ctx.Length == 16 && k != ctx
    modifies k
    ensures k[..] == Block(Advance(ctx[..], ctr))
  {
    hide Add, DoubleRounds;
    ghost var c := ctx[..];
    forall i | 0 <= i < 16 { k[i] := ctx[i]; }
    k[12] := Add(k[12], ctr);
    assert k[..] == Advance(c, ctr);
    RoundsOf(k);
    ghost var r := k[..];
    var i := 0;
    while i < 16
      invariant 0 <= i <= 16 && ctx[..] == c
      invariant forall j :: 0 <= j < i ==> k[j] == Add(r[j], c[j])
      invariant forall j :: i <= j < 16 ==> k[j] == r[j]
    {
      var x := Add(k[i], ctx[i]);
      k[i] := x;
      i := i + 1;
    }
    AddAssoc(r[12], c[12], ctr);
    k[12] := Add(k[12], ctr);
    assert k[..] == Block(Advance(c, ctr));
  }
}
