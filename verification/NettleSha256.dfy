/** Nettle's SHA-256: sixteen-word rolling schedule, rotating register names, streaming context. */
module NettleSha256 {
  import opened Sha256

  // ---- the macros, rotations written out ----

  function NettleChoice(x: bv32, y: bv32, z: bv32): bv32 { z ^ (x & (y ^ z)) }

  function NettleMajority(x: bv32, y: bv32, z: bv32): bv32 { (x & y) ^ (z & (x ^ y)) }

  function S0(x: bv32): bv32 { ((x << 30) | (x >> 2)) ^ ((x << 19) | (x >> 13)) ^ ((x << 10) | (x >> 22)) }

  function S1(x: bv32): bv32 { ((x << 26) | (x >> 6)) ^ ((x << 21) | (x >> 11)) ^ ((x << 7) | (x >> 25)) }

  function SmallS0(x: bv32): bv32 { ((x << 25) | (x >> 7)) ^ ((x << 14) | (x >> 18)) ^ (x >> 3) }

  function SmallS1(x: bv32): bv32 { ((x << 15) | (x >> 17)) ^ ((x << 13) | (x >> 19)) ^ (x >> 10) }

  function AddToH(h: bv32, s: bv32, c: bv32, k: bv32, w: bv32): bv32 { h + (s + c + k + w) }

  function AddToW(w16: bv32, s1: bv32, w7: bv32, s0: bv32): bv32 { w16 + (s1 + w7 + s0) }

  // ---- the rewritten forms are the standard functions ----

  lemma ChoiceBits(x: bv32, y: bv32, z: bv32)
    ensures z ^ (x & (y ^ z)) == (x & y) ^ (!x & z)
  {
  }

  lemma MajorityBits(x: bv32, y: bv32, z: bv32)
    ensures (x & y) ^ (z & (x ^ y)) == (x & y) ^ ((x & z) ^ (y & z))
  {
  }

  lemma SameChoice(x: bv32, y: bv32, z: bv32)
    ensures NettleChoice(x, y, z) == Choice(x, y, z)
  {
    ChoiceBits(x, y, z);
  }

  lemma SameMajority(x: bv32, y: bv32, z: bv32)
    ensures NettleMajority(x, y, z) == Majority(x, y, z)
  {
    MajorityBits(x, y, z);
  }

  lemma SameSigmas(x: bv32)
    ensures S0(x) == BigSigma0(x) && S1(x) == BigSigma1(x)
    ensures SmallS0(x) == SmallSigma0(x) && SmallS1(x) == SmallSigma1(x)
  {
  }

  lemma SameSums(h: bv32, s: bv32, c: bv32, k: bv32, w: bv32)
    ensures AddToH(h, s, c, k, w) == Sum5(h, s, c, k, w) && AddToW(h, s, c, k) == Sum4(s, c, k, h)
  {
  }

  // ---- the compression function ----

  /** One ROUND: two registers change, the others take their new places by renaming. */
  method RoundStep(a: bv32, b: bv32, c: bv32, d: bv32, e: bv32, f: bv32, g: bv32, h: bv32, k: bv32, data: bv32,
                   ghost m: seq<bv32>, ghost r: Regs, ghost n: nat)
    returns (d': bv32, h': bv32)
    requires |m| == 16 && n < 64 && k == K(n) && data == Schedule(m, n)
    requires Regs(a, b, c, d, e, f, g, h) == Rounds(m, r, n)
    ensures Regs(h', a, b, c, d', e, f, g) == Rounds(m, r, n + 1)
  {
    hide K, S0, S1, NettleChoice, NettleMajority, AddToH, Sum5, BigSigma0, BigSigma1, Choice, Majority, Plus, Schedule;
    SameSigmas(e);
    SameSigmas(a);
    SameChoice(e, f, g);
    SameMajority(a, b, c);
    SameSums(h, S1(e), NettleChoice(e, f, g), k, data);
    h' := AddToH(h, S1(e), NettleChoice(e, f, g), k, data);
    d' := Plus(d, h');
    h' := Plus(h', Plus(S0(a), NettleMajority(a, b, c)));
  }

  /** The array holds the last sixteen schedule words before number n, each at its index modulo 16. */
  ghost predicate Rolling(d: seq<bv32>, m: seq<bv32>, n: nat) {
    && |d| == |m| == 16 && n >= 16
    && forall j :: n - 16 <= j < n ==> d[j % 16] == Schedule(m, j)
  }

  /** EXPAND: the oldest word is replaced by the next one. */
  method Expand(data: array<bv32>, i: nat, ghost m: seq<bv32>, ghost n: nat) returns (w: bv32)
    requires data.Length == 16 && Rolling(data[..], m, n) && i == n % 16
    modifies data
    ensures |m| == 16 && w == Schedule(m, n) && Rolling(data[..], m, n + 1)
  {
    hide SmallS0, SmallS1, AddToW, Sum4, SmallSigma0, SmallSigma1, Schedule;
    ghost var d := data[..];
    RollingWord(d, m, n, 2);
    RollingWord(d, m, n, 7);
    RollingWord(d, m, n, 15);
    RollingWord(d, m, n, 16);
    ScheduleStep(m, n);
    SameSigmas(data[(i + 14) % 16]);
    SameSigmas(data[(i + 1) % 16]);
    SameSums(data[i], SmallS1(data[(i + 14) % 16]), data[(i + 9) % 16], SmallS0(data[(i + 1) % 16]), 0);
    w := AddToW(data[i], SmallS1(data[(i + 14) % 16]), data[(i + 9) % 16], SmallS0(data[(i + 1) % 16]));
    data[i] := w;
    RollingNext(d, m, n);
    assert data[..] == d[i := w];
  }

  /** The word `back` places before number n stands `back` places before it modulo 16. */
  lemma RollingWord(d: seq<bv32>, m: seq<bv32>, n: nat, back: nat)
    requires Rolling(d, m, n) && 1 <= back <= 16
    ensures d[(n % 16 + (16 - back)) % 16] == Schedule(m, n - back)
  {
    hide Schedule;
    IndexBack(n, back);
    assert d[(n - back) % 16] == Schedule(m, n - back);
  }

  lemma IndexBack(n: nat, back: nat)
    requires 1 <= back <= 16 && back <= n
    ensures (n - back) % 16 == (n % 16 + (16 - back)) % 16
  {
  }

  lemma ScheduleStep(m: seq<bv32>, n: nat)
    requires |m| == 16 && n >= 16
    ensures Schedule(m, n) ==
      Sum4(SmallSigma1(Schedule(m, n - 2)), Schedule(m, n - 7), SmallSigma0(Schedule(m, n - 15)), Schedule(m, n - 16))
  {
    hide SmallSigma0, SmallSigma1, Sum4;
  }

  lemma RollingNext(d: seq<bv32>, m: seq<bv32>, n: nat)
    requires Rolling(d, m, n)
    ensures Rolling(d[n % 16 := Schedule(m, n)], m, n + 1)
  {
    hide Schedule;
  }

  lemma RollingStart(d: seq<bv32>, m: seq<bv32>)
    requires |m| == 16 && d == m
    ensures Rolling(d, m, 16)
  {
  }

  /** READ_UINT32 over one block. */
  method ReadBlock(input: array<bv8>, off: nat, ghost block: seq<bv8>) returns (data: array<bv32>)
    requires off + 64 <= input.Length && block == input[off..off + 64]
    ensures fresh(data) && data[..] == Words(block)
  {
    hide Word;
    data := new bv32[16];
    var i := 0;
    while i < 16
      invariant 0 <= i <= 16 && forall j :: 0 <= j < i ==> data[j] == Word(block, 4 * j)
    {
      var p := off + 4 * i;
      assert block[4 * i..4 * i + 4] == input[p..p + 4];
      SameWord(block, 4 * i, input[p..p + 4]);
      data[i] := Word(input[p..p + 4], 0);
      i := i + 1;
    }
    assert data[..] == Words(block);
  }

  /** Eight rounds on the block's own words; afterwards every register is back under its own name. */
  method EightRounds(data: array<bv32>, i: nat, s: Regs, ghost m: seq<bv32>, ghost r0: Regs) returns (r: Regs)
    requires data.Length == 16 && |m| == 16 && data[..] == m && i <= 8 && s == Rounds(m, r0, i)
    ensures r == Rounds(m, r0, i + 8)
  {
    hide Rounds, Schedule, K;
    OwnWords(m);
    var A, B, C, D, E, F, G, H := s.a, s.b, s.c, s.d, s.e, s.f, s.g, s.h;
    D, H := RoundStep(A, B, C, D, E, F, G, H, K(i + 0), data[i + 0], m, r0, i + 0);
    C, G := RoundStep(H, A, B, C, D, E, F, G, K(i + 1), data[i + 1], m, r0, i + 1);
    B, F := RoundStep(G, H, A, B, C, D, E, F, K(i + 2), data[i + 2], m, r0, i + 2);
    A, E := RoundStep(F, G, H, A, B, C, D, E, K(i + 3), data[i + 3], m, r0, i + 3);
    H, D := RoundStep(E, F, G, H, A, B, C, D, K(i + 4), data[i + 4], m, r0, i + 4);
    G, C := RoundStep(D, E, F, G, H, A, B, C, K(i + 5), data[i + 5], m, r0, i + 5);
    F, B := RoundStep(C, D, E, F, G, H, A, B, K(i + 6), data[i + 6], m, r0, i + 6);
    E, A := RoundStep(B, C, D, E, F, G, H, A, K(i + 7), data[i + 7], m, r0, i + 7);
    r := Regs(A, B, C, D, E, F, G, H);
  }

  /** The first sixteen rounds. */
  method FirstRounds(data: array<bv32>, s: Regs, ghost m: seq<bv32>) returns (r: Regs)
    requires data.Length == 16 && |m| == 16 && data[..] == m
    ensures r == Rounds(m, s, 16)
  {
    hide Rounds;
    r := s;
    RoundsZero(m, s);
    var i := 0;
    while i < 16
      invariant (i == 0 || i == 8 || i == 16) && r == Rounds(m, s, i)
    {
      r := EightRounds(data, i, r, m, s);
      i := i + 8;
    }
  }

  lemma RoundsZero(m: seq<bv32>, r: Regs)
    requires |m| == 16
    ensures Rounds(m, r, 0) == r
  {
  }

  lemma OwnWords(m: seq<bv32>)
    requires |m| == 16
    ensures forall j :: 0 <= j < 16 ==> Schedule(m, j) == m[j]
  {
  }

  /** ROUND on a word produced by EXPAND. */
  method ExpandingRound(data: array<bv32>, j: nat, a: bv32, b: bv32, c: bv32, d: bv32, e: bv32, f: bv32, g: bv32,
                        h: bv32, k: bv32, ghost m: seq<bv32>, ghost r: Regs, ghost n: nat)
    returns (d': bv32, h': bv32)
    requires data.Length == 16 && Rolling(data[..], m, n) && j == n % 16
    requires |m| == 16 && n < 64 && k == K(n) && Regs(a, b, c, d, e, f, g, h) == Rounds(m, r, n)
    modifies data
    ensures Rolling(data[..], m, n + 1) && Regs(h', a, b, c, d', e, f, g) == Rounds(m, r, n + 1)
  {
    hide Rounds, Schedule, Rolling, K;
    var w := Expand(data, j, m, n);
    d', h' := RoundStep(a, b, c, d, e, f, g, h, k, w, m, r, n);
  }

  lemma NextIndices(i: nat, j: nat)
    requires (j == 0 || j == 8) && i % 16 == j
    ensures (i + 1) % 16 == j + 1 && (i + 2) % 16 == j + 2 && (i + 3) % 16 == j + 3 && (i + 4) % 16 == j + 4
    ensures (i + 5) % 16 == j + 5 && (i + 6) % 16 == j + 6 && (i + 7) % 16 == j + 7
  {
  }

  /** Half a turn of the second loop: eight rounds on words expanded in place. */
  method EightExpanding(data: array<bv32>, j: nat, s: Regs, i: nat, ghost m: seq<bv32>, ghost r0: Regs)
    returns (r: Regs)
    requires data.Length == 16 && |m| == 16 && (j == 0 || j == 8) && i % 16 == j && i <= 56
    requires Rolling(data[..], m, i) && s == Rounds(m, r0, i)
    modifies data
    ensures Rolling(data[..], m, i + 8) && r == Rounds(m, r0, i + 8)
  {
    hide Rounds, Schedule, Rolling, K;
    NextIndices(i, j);
    var A, B, C, D, E, F, G, H := s.a, s.b, s.c, s.d, s.e, s.f, s.g, s.h;
    D, H := ExpandingRound(data, j + 0, A, B, C, D, E, F, G, H, K(i + 0), m, r0, i + 0);
    C, G := ExpandingRound(data, j + 1, H, A, B, C, D, E, F, G, K(i + 1), m, r0, i + 1);
    B, F := ExpandingRound(data, j + 2, G, H, A, B, C, D, E, F, K(i + 2), m, r0, i + 2);
    A, E := ExpandingRound(data, j + 3, F, G, H, A, B, C, D, E, K(i + 3), m, r0, i + 3);
    H, D := ExpandingRound(data, j + 4, E, F, G, H, A, B, C, D, K(i + 4), m, r0, i + 4);
    G, C := ExpandingRound(data, j + 5, D, E, F, G, H, A, B, C, K(i + 5), m, r0, i + 5);
    F, B := ExpandingRound(data, j + 6, C, D, E, F, G, H, A, B, K(i + 6), m, r0, i + 6);
    E, A := ExpandingRound(data, j + 7, B, C, D, E, F, G, H, A, K(i + 7), m, r0, i + 7);
    r := Regs(A, B, C, D, E, F, G, H);
  }

  /** The remaining rounds, sixteen at a time. */
  method ExpandingRounds(data: array<bv32>, s: Regs, ghost m: seq<bv32>, ghost r0: Regs) returns (r: Regs)
    requires data.Length == 16 && |m| == 16 && data[..] == m && s == Rounds(m, r0, 16)
    modifies data
    ensures r == Rounds(m, r0, 64)
  {
    hide Rounds, Rolling;
    RollingStart(data[..], m);
    r := s;
    var i := 16;
    while i < 64
      invariant (i == 16 || i == 32 || i == 48 || i == 64) && r == Rounds(m, r0, i) && Rolling(data[..], m, i)
    {
      r := EightExpanding(data, 0, r, i, m, r0);
      r := EightExpanding(data, 8, r, i + 8, m, r0);
      i := i + 16;
    }
  }

  /** The compression of one block into the state. */
  method CompressBlock(state: array<bv32>, input: array<bv8>, off: nat)
    requires state.Length == 8 && off + 64 <= input.Length
    modifies state
    ensures state[..] == Compress(old(state[..]), input[off..off + 64])
  {
    hide Rounds, Words, AddTo;
    ghost var s, block := state[..], input[off..off + 64];
    ghost var m := Words(block);
    var data := ReadBlock(input, off, block);
    var r := Regs(state[0], state[1], state[2], state[3], state[4], state[5], state[6], state[7]);
    var r1 := FirstRounds(data, r, m);
    r1 := ExpandingRounds(data, r1, m, r);
    AddRegs(state, r1);
  }

  /** Update state. */
  method AddRegs(state: array<bv32>, r: Regs)
    requires state.Length == 8
    modifies state
    ensures state[..] == AddTo(old(state[..]), r)
  {
    hide Plus, AddTo;
    ghost var s := state[..];
    AddToIs(s, r);
    state[0] := Plus(state[0], r.a);
    state[1] := Plus(state[1], r.b);
    state[2] := Plus(state[2], r.c);
    state[3] := Plus(state[3], r.d);
    state[4] := Plus(state[4], r.e);
    state[5] := Plus(state[5], r.f);
    state[6] := Plus(state[6], r.g);
    state[7] := Plus(state[7], r.h);
    EightEqual(state[..], AddTo(s, r));
  }

  lemma AddToIs(s: seq<bv32>, r: Regs)
    requires |s| == 8
    ensures AddTo(s, r)[0] == Plus(s[0], r.a) && AddTo(s, r)[1] == Plus(s[1], r.b)
    ensures AddTo(s, r)[2] == Plus(s[2], r.c) && AddTo(s, r)[3] == Plus(s[3], r.d)
    ensures AddTo(s, r)[4] == Plus(s[4], r.e) && AddTo(s, r)[5] == Plus(s[5], r.f)
    ensures AddTo(s, r)[6] == Plus(s[6], r.g) && AddTo(s, r)[7] == Plus(s[7], r.h)
  {
    hide Plus;
  }
}
