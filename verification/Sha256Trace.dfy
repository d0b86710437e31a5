/** The compression of one block, written out: sixty-four schedule words and the two registers that each round makes. */
module Sha256Trace {
  import opened Sha256

  /** The schedule, and registers a and e after each round, in rows of eight. */
  datatype Trace = Trace(w: seq<seq<bv32>>, a: seq<seq<bv32>>, e: seq<seq<bv32>>)

  predicate Shape(t: Trace) { Rows(t.w) && Rows(t.a) && Rows(t.e) }

  function Next(w0: bv32, w1: bv32, w9: bv32, w14: bv32): bv32 { Sum4(SmallSigma1(w14), w9, SmallSigma0(w1), w0) }

  /** Eight words of a schedule, after the sixteen words before. */
  predicate NextRow(p: seq<bv32>, q: seq<bv32>, w: seq<bv32>)
    requires |p| == |q| == |w| == 8
  {
    && w[0] == Next(p[0], p[1], q[1], q[6]) && w[1] == Next(p[1], p[2], q[2], q[7])
    && w[2] == Next(p[2], p[3], q[3], w[0]) && w[3] == Next(p[3], p[4], q[4], w[1])
    && w[4] == Next(p[4], p[5], q[5], w[2]) && w[5] == Next(p[5], p[6], q[6], w[3])
    && w[6] == Next(p[6], p[7], q[7], w[4]) && w[7] == Next(p[7], q[0], w[0], w[5])
  }

  /** Row k of the schedule follows from the two rows before. */
  predicate ScheduleRow(t: Trace, k: nat)
    requires Shape(t) && 2 <= k < 8
  {
    NextRow(t.w[k - 2], t.w[k - 1], t.w[k])
  }

  /** The registers after k rows of rounds. */
  function Before(s: seq<bv32>, t: Trace, k: nat): Regs
    requires |s| == 8 && Shape(t) && k <= 8
  {
    if k == 0 then Load(s) else Last(t.a[k - 1], t.e[k - 1])
  }

  function Last(a: seq<bv32>, e: seq<bv32>): Regs
    requires |a| == |e| == 8
  {
    Regs(a[7], a[6], a[5], a[4], e[7], e[6], e[5], e[4])
  }

  /** The registers after a round, of which only a and e are new. */
  function Then(r: Regs, a: bv32, e: bv32): Regs { Regs(a, r.a, r.b, r.c, e, r.e, r.f, r.g) }

  /** Eight rounds from registers `r0` on. */
  predicate EightRounds(r0: Regs, k: seq<bv32>, w: seq<bv32>, a: seq<bv32>, e: seq<bv32>)
    requires |k| == |w| == |a| == |e| == 8
  {
    var r1 := Then(r0, a[0], e[0]);
    var r2 := Then(r1, a[1], e[1]);
    var r3 := Then(r2, a[2], e[2]);
    var r4 := Then(r3, a[3], e[3]);
    var r5 := Then(r4, a[4], e[4]);
    var r6 := Then(r5, a[5], e[5]);
    var r7 := Then(r6, a[6], e[6]);
    && Round(r0, k[0], w[0]) == r1 && Round(r1, k[1], w[1]) == r2
    && Round(r2, k[2], w[2]) == r3 && Round(r3, k[3], w[3]) == r4
    && Round(r4, k[4], w[4]) == r5 && Round(r5, k[5], w[5]) == r6
    && Round(r6, k[6], w[6]) == r7 && Round(r7, k[7], w[7]) == Last(a, e)
  }

  /** Row k of the rounds follows from the row before. */
  predicate RoundsRow(s: seq<bv32>, t: Trace, k: nat)
    requires |s| == 8 && Shape(t) && k < 8
  {
    TableSizes();
    EightRounds(Before(s, t, k), KTABLE[k], t.w[k], t.a[k], t.e[k])
  }

  // ---- what the rows say together ----

  ghost predicate Scheduled(m: seq<bv32>, n: nat, w: seq<bv32>)
    requires |m| == 16 && |w| == 8
  {
    && Schedule(m, n) == w[0] && Schedule(m, n + 1) == w[1] && Schedule(m, n + 2) == w[2]
    && Schedule(m, n + 3) == w[3] && Schedule(m, n + 4) == w[4] && Schedule(m, n + 5) == w[5]
    && Schedule(m, n + 6) == w[6] && Schedule(m, n + 7) == w[7]
  }

  lemma ScheduleOwn(m: seq<bv32>, p: seq<bv32>, q: seq<bv32>)
    requires |p| == |q| == 8 && m == p + q
    ensures Scheduled(m, 0, p) && Scheduled(m, 8, q)
  {
  }

  lemma ScheduleStep(m: seq<bv32>, n: nat)
    requires |m| == 16
    ensures Schedule(m, n + 16) == Next(Schedule(m, n), Schedule(m, n + 1), Schedule(m, n + 9), Schedule(m, n + 14))
  {
    hide Sum4, SmallSigma0, SmallSigma1;
  }

  lemma ScheduleNext(m: seq<bv32>, n: nat, p: seq<bv32>, q: seq<bv32>, w: seq<bv32>)
    requires |m| == 16 && |p| == |q| == |w| == 8
    requires Scheduled(m, n, p) && Scheduled(m, n + 8, q) && NextRow(p, q, w)
    ensures Scheduled(m, n + 16, w)
  {
    hide Schedule, Next;
    ScheduleStep(m, n);
    ScheduleStep(m, n + 1);
    ScheduleStep(m, n + 2);
    ScheduleStep(m, n + 3);
    ScheduleStep(m, n + 4);
    ScheduleStep(m, n + 5);
    ScheduleStep(m, n + 6);
    ScheduleStep(m, n + 7);
  }

  lemma OneRound(m: seq<bv32>, s: Regs, n: nat, k: seq<bv32>, w: seq<bv32>, i: nat)
    requires |m| == 16 && |k| == |w| == 8 && i < 8 && n + i < 64
    requires K(n + i) == k[i] && Schedule(m, n + i) == w[i]
    ensures Rounds(m, s, n + i + 1) == Round(Rounds(m, s, n + i), k[i], w[i])
  {
    hide Round, Schedule, K;
  }

  lemma ConstantOf(k: nat, i: nat)
    requires k < 8 && i < 8
    ensures Rows(KTABLE) && K(8 * k + i) == KTABLE[k][i]
  {
    hide KTABLE;
    TableSizes();
  }

  lemma RoundsNext(m: seq<bv32>, s: Regs, n: nat, r: Regs, k: seq<bv32>, w: seq<bv32>, a: seq<bv32>, e: seq<bv32>)
    requires |m| == 16 && |k| == |w| == |a| == |e| == 8 && n + 8 <= 64
    requires Scheduled(m, n, w) && Rounds(m, s, n) == r && EightRounds(r, k, w, a, e)
    requires forall i :: 0 <= i < 8 ==> K(n + i) == k[i]
    ensures Rounds(m, s, n + 8) == Last(a, e)
  {
    hide Round, Rounds, Schedule, K;
    OneRound(m, s, n, k, w, 0);
    OneRound(m, s, n, k, w, 1);
    OneRound(m, s, n, k, w, 2);
    OneRound(m, s, n, k, w, 3);
    OneRound(m, s, n, k, w, 4);
    OneRound(m, s, n, k, w, 5);
    OneRound(m, s, n, k, w, 6);
    OneRound(m, s, n, k, w, 7);
  }

  ghost predicate Traces(s: seq<bv32>, t: Trace)
    requires |s| == 8 && Shape(t)
  {
    (forall k :: 2 <= k < 8 ==> ScheduleRow(t, k)) && forall k :: 0 <= k < 8 ==> RoundsRow(s, t, k)
  }

  lemma {:induction false} Traced(s: seq<bv32>, m: seq<bv32>, t: Trace, k: nat)
    requires |s| == 8 && |m| == 16 && Shape(t) && k <= 8 && m == t.w[0] + t.w[1] && Traces(s, t)
    ensures Rounds(m, Load(s), 8 * k) == Before(s, t, k)
    ensures forall j :: 0 <= j < k ==> Scheduled(m, 8 * j, t.w[j])
  {
    hide NextRow, EightRounds, Scheduled, Load, Last, K, KTABLE, Round;
    TableSizes();
    if k > 0 {
      var j := k - 1;
      Traced(s, m, t, j);
      if k <= 2 {
        ScheduleOwn(m, t.w[0], t.w[1]);
      } else {
        assert ScheduleRow(t, j);
        ScheduleNext(m, 8 * (j - 2), t.w[j - 2], t.w[j - 1], t.w[j]);
      }
      assert RoundsRow(s, t, j);
      forall i | 0 <= i < 8 ensures K(8 * j + i) == KTABLE[j][i] { ConstantOf(j, i); }
      RoundsNext(m, Load(s), 8 * j, Before(s, t, j), KTABLE[j], t.w[j], t.a[j], t.e[j]);
    }
  }

  /** What a trace comes to. */
  lemma TraceCompresses(s: seq<bv32>, block: seq<bv8>, t: Trace)
    requires |s| == 8 && |block| == 64 && Shape(t) && Words(block) == t.w[0] + t.w[1] && Traces(s, t)
    ensures Compress(s, block) == AddTo(s, Last(t.a[7], t.e[7]))
  {
    hide Words, Rounds, Traces, Load, AddTo;
    Traced(s, Words(block), t, 8);
  }

  // ---- writing out blocks ----

  function Join(b0: bv8, b1: bv8, b2: bv8, b3: bv8): bv32 {
    (b0 as bv32 << 24) | (b1 as bv32 << 16) | (b2 as bv32 << 8) | b3 as bv32
  }

  lemma WordOfBytes(s: seq<bv8>, p: nat, b0: bv8, b1: bv8, b2: bv8, b3: bv8)
    requires p + 4 <= |s| && s[p] == b0 && s[p + 1] == b1 && s[p + 2] == b2 && s[p + 3] == b3
    ensures Word(s, p) == Join(b0, b1, b2, b3)
  {
  }

  lemma SixteenWords(block: seq<bv8>, p: seq<bv32>, q: seq<bv32>)
    requires |block| == 64 && |p| == |q| == 8
    requires Word(block, 0) == p[0] && Word(block, 4) == p[1] && Word(block, 8) == p[2] && Word(block, 12) == p[3]
    requires Word(block, 16) == p[4] && Word(block, 20) == p[5] && Word(block, 24) == p[6] && Word(block, 28) == p[7]
    requires Word(block, 32) == q[0] && Word(block, 36) == q[1] && Word(block, 40) == q[2] && Word(block, 44) == q[3]
    requires Word(block, 48) == q[4] && Word(block, 52) == q[5] && Word(block, 56) == q[6] && Word(block, 60) == q[7]
    ensures Words(block) == p + q
  {
    hide Word;
    var m, t := Words(block), p + q;
    forall i | 0 <= i < 16 ensures m[i] == t[i] {
      assert i == 0 || i == 1 || i == 2 || i == 3 || i == 4 || i == 5 || i == 6 || i == 7
          || i == 8 || i == 9 || i == 10 || i == 11 || i == 12 || i == 13 || i == 14 || i == 15;
    }
  }

  lemma {:induction false} NoBytes(k: nat)
    ensures ByteAt(0, k) == 0
  {
    if k > 0 { NoBytes(k - 1); }
  }

  /** The length field of a message of fewer than 8192 bytes. */
  lemma SmallLength(n: nat)
    requires n < 0x2000
    ensures LengthField(n) == [0, 0, 0, 0, 0, 0, ((8 * n) / 256) as bv8, ((8 * n) % 256) as bv8]
  {
    var x := 8 * n;
    assert ByteAt(x, 0) == (x % 256) as bv8;
    assert ByteAt(x, 1) == ByteAt(x / 256, 0) == (x / 256) as bv8;
    assert x / 256 / 256 == 0;
    forall k | 2 <= k < 8 ensures ByteAt(x, k) == 0 {
      assert ByteAt(x, k) == ByteAt(x / 256, k - 1) == ByteAt(0, k - 2);
      NoBytes(k - 2);
    }
  }

  lemma ZerosBefore(k: nat, n: nat)
    requires k <= 55 && k == n % 64
    ensures ZeroCount(n) == 55 - k
  {
  }

  /** The last block of a message of n bytes, where the padding fits behind the rest of it. */
  lemma LastBlock(tail: seq<bv8>, n: nat)
    requires |tail| <= 55 && |tail| == n % 64 && n < 0x2000
    ensures |tail + Padding(n)| == 64 && (tail + Padding(n))[..|tail|] == tail
    ensures (tail + Padding(n))[|tail|] == 0x80
    ensures forall i :: |tail| < i < 62 ==> (tail + Padding(n))[i] == 0
    ensures (tail + Padding(n))[62] == ((8 * n) / 256) as bv8 && (tail + Padding(n))[63] == ((8 * n) % 256) as bv8
  {
    hide LengthField, ZeroCount;
    SmallLength(n);
    ZerosBefore(|tail|, n);
    var z, l := Zeros(55 - |tail|), LengthField(n);
    var b := tail + [0x80] + z + l;
    assert tail + Padding(n) == b;
    assert b[62] == l[6] && b[63] == l[7];
    forall i | |tail| < i < 62 ensures b[i] == 0 {
      if i < 56 { assert b[i] == z[i - |tail| - 1]; } else { assert b[i] == l[i - 56]; }
    }
  }

  /** A digest is the bytes of its words, most significant first. */
  lemma DigestWord(s: seq<bv32>, i: nat)
    requires |s| == 8 && i < 8
    ensures Word(Digest(s), 4 * i) == s[i]
  {
    hide Word, ByteOfWord;
    var d := Digest(s);
    assert d[4 * i] == DigestByte(s, 4 * i) && d[4 * i + 1] == DigestByte(s, 4 * i + 1);
    assert d[4 * i + 2] == DigestByte(s, 4 * i + 2) && d[4 * i + 3] == DigestByte(s, 4 * i + 3);
    WordOfBytes(d, 4 * i, d[4 * i], d[4 * i + 1], d[4 * i + 2], d[4 * i + 3]);
    JoinedBytes(s[i]);
  }

  lemma JoinedBytes(w: bv32)
    ensures Join(ByteOfWord(w, 0), ByteOfWord(w, 1), ByteOfWord(w, 2), ByteOfWord(w, 3)) == w
  {
  }
}
