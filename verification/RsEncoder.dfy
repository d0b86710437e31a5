/** qrencode's `modnn`, `initrspoly` and `appendrs`, over the buffers they fill. */
module RsEncoder {
  import ByteNumbers
  import opened Gf256
  import opened GfField
  import opened ReedSolomon

  /** Reduces modulo 255 by adding up base-256 digits. */
  method Modnn(x0: nat) returns (x: nat)
    ensures x == x0 % 255
  {
    x := x0;
    while x >= 255
      invariant x % 255 == x0 % 255
    {
      x := x - 255;
      DigitSum(x);
      x := x / 256 + x % 256;
    }
  }

  lemma DigitSum(x: nat)
    ensures (x / 256 + x % 256) % 255 == x % 255 && (x + 255) % 255 == x % 255 && x / 256 + x % 256 <= x
  {
  }

  /** Multiplication of a non-zero byte by alpha^k, through the tables. */
  method TimesPower(a: bv8, k: nat) returns (r: bv8)
    requires a != 0
    ensures r == Times(a, k)
  {
    hide LogAt, ExpAt, Times;
    ExpOfSum(a, k);
    var x := Modnn(LogAt(a) + k);
    r := ExpAt(x);
  }

  /** The coefficients above `j` are already those of degree i+1, the others still of degree i. */
  ghost predicate Between(g: seq<bv8>, i: nat, j: nat) {
    && |g| > i + 1 && j <= i + 1
    && (forall k :: j < k <= i + 1 ==> g[k] == Gen(i + 1)[k])
    && (forall k :: 0 <= k <= j && k <= i ==> g[k] == Gen(i)[k])
  }

  lemma BetweenStep(g: seq<bv8>, i: nat, j: nat)
    requires Between(g, i, j) && 1 <= j <= i <= 253
    ensures Between(g[j := Add(g[j - 1], Times(g[j], i))], i, j - 1)
  {
    hide Times, Gen, Add;
    GenAt(i, j);
  }

  lemma BetweenEnd(g: seq<bv8>, i: nat)
    requires Between(g, i, 0) && i <= 253
    ensures g[0] != 0 && g[0 := Times(g[0], i)][..i + 2] == Gen(i + 1)
  {
    hide Times, Gen, Add;
    GenAt(i, 0);
    GenNonzero(i, 0);
    AddLaws(Times(g[0], i), 0);
  }

  /** The logarithms of the generator's coefficients. */
  ghost predicate GenLogs(g: seq<bv8>, n: nat) {
    |g| > n && forall k :: 0 <= k <= n ==> g[k] as int == LogAt(Gen(n)[k])
  }

  lemma LogIsByte(a: bv8)
    ensures LogAt(a) < 256 && (LogAt(a) as bv8) as int == LogAt(a)
  {
    hide LogAt;
    LogIsLog(a);
    ByteNumbers.NumberByte(LogAt(a));
  }

  /** One factor x + alpha^i is multiplied in, in place. */
  method MultiplyFactor(genpoly: array<bv8>, i: nat)
    requires i <= 253 && i + 1 < genpoly.Length && forall k :: 0 <= k <= i ==> genpoly[k] == Gen(i)[k]
    modifies genpoly
    ensures forall k :: 0 <= k <= i + 1 ==> genpoly[k] == Gen(i + 1)[k]
    ensures genpoly[i + 2..] == old(genpoly[i + 2..])
  {
    hide Gen, Times, Between, Add;
    GenMonic(i + 1);
    genpoly[i + 1] := 1;
    var j := i;
    BetweenStart(genpoly[..], i);
    while j > 0
      invariant 0 <= j <= i && Between(genpoly[..], i, j)
      invariant genpoly[i + 2..] == old(genpoly[i + 2..])
    {
      ghost var g := genpoly[..];
      BetweenStep(g, i, j);
      if genpoly[j] != 0 {
        var t := TimesPower(genpoly[j], i);
        genpoly[j] := Add(genpoly[j - 1], t);
      } else {
        TimesZero(i);
        AddLaws(genpoly[j - 1], 0);
        genpoly[j] := genpoly[j - 1];
      }
      assert genpoly[..] == g[j := Add(g[j - 1], Times(g[j], i))];
      j := j - 1;
    }
    ghost var g := genpoly[..];
    BetweenEnd(g, i);
    var t := TimesPower(genpoly[0], i);
    genpoly[0] := t;
    assert genpoly[..] == g[0 := Times(g[0], i)];
    forall k | 0 <= k <= i + 1 ensures genpoly[k] == Gen(i + 1)[k] {
      assert genpoly[k] == genpoly[..][..i + 2][k];
    }
  }

  lemma BetweenStart(g: seq<bv8>, i: nat)
    requires |g| > i + 1 && g[i + 1] == 1 && forall k :: 0 <= k <= i ==> g[k] == Gen(i)[k]
    ensures Between(g, i, i)
  {
    hide Gen;
    GenMonic(i + 1);
  }

  /** The generator polynomial, as logarithms. With 255 check bytes the last loop of the source,
      over an unsigned char, would not end. */
  method InitRsPoly(eclen: nat, genpoly: array<bv8>)
    requires eclen <= 254 && eclen < genpoly.Length
    modifies genpoly
    ensures GenLogs(genpoly[..], eclen) && genpoly[eclen + 1..] == old(genpoly[eclen + 1..])
  {
    hide Gen, LogAt;
    genpoly[0] := 1;
    assert Gen(0)[0] == 1 by { GenMonic(0); }
    var i := 0;
    while i < eclen
      invariant 0 <= i <= eclen && forall k :: 0 <= k <= i ==> genpoly[k] == Gen(i)[k]
      invariant genpoly[eclen + 1..] == old(genpoly[eclen + 1..])
    {
      ghost var tail := genpoly[i + 2..];
      MultiplyFactor(genpoly, i);
      assert genpoly[eclen + 1..] == genpoly[i + 2..][eclen - i - 1..] == tail[eclen - i - 1..];
      i := i + 1;
    }
    i := 0;
    while i <= eclen
      invariant 0 <= i <= eclen + 1
      invariant forall k :: 0 <= k < i ==> genpoly[k] as int == LogAt(Gen(eclen)[k])
      invariant forall k :: i <= k <= eclen ==> genpoly[k] == Gen(eclen)[k]
      invariant genpoly[eclen + 1..] == old(genpoly[eclen + 1..])
    {
      LogIsByte(genpoly[i]);
      genpoly[i] := LogAt(genpoly[i]) as bv8;
      i := i + 1;
    }
  }

  /** The product of the byte with logarithm `fb` and a generator coefficient. */
  method TimesCoefficient(fb: nat, log: bv8, ghost f: bv8, ghost g: bv8) returns (r: bv8)
    requires f != 0 && g != 0 && fb == LogAt(f) && log as int == LogAt(g)
    ensures r == Mul(g, f)
  {
    hide LogAt, ExpAt, Times;
    ExpOfSum(f, LogAt(g));
    MulComm(g, f);
    var x := Modnn(fb + log as int);
    r := ExpAt(x);
    assert Mul(f, g) == Times(f, LogAt(g));
  }

  /** One byte of data goes through the division register. */
  method ShiftRegister(d: bv8, ecbuf: array<bv8>, eclen: nat, genpoly: array<bv8>)
    requires 1 <= eclen <= 254 && eclen <= ecbuf.Length && ecbuf != genpoly && GenLogs(genpoly[..], eclen)
    modifies ecbuf
    ensures ecbuf[..eclen] == Shift(old(ecbuf[..eclen]), d, Gen(eclen)) && ecbuf[eclen..] == old(ecbuf[eclen..])
  {
    hide LogAt, Gen, Mul, Add, Shift;
    ghost var ec, g, f := ecbuf[..eclen], Gen(eclen), Add(d, ecbuf[0]);
    ShiftEntries(ec, d, g);
    var fb := LogAt(Add(d, ecbuf[0]));
    LogIsLog(f);
    if fb != 255 {
      var j := 1;
      while j < eclen
        invariant 1 <= j <= eclen
        invariant forall k :: 0 <= k < j - 1 ==> ecbuf[k] == Shift(ec, d, g)[k]
        invariant forall k :: j - 1 <= k < eclen ==> ecbuf[k] == ec[k]
        invariant ecbuf[eclen..] == old(ecbuf[eclen..])
      {
        GenNonzero(eclen, eclen - j);
        assert genpoly[eclen - j] == genpoly[..][eclen - j];
        var t := TimesCoefficient(fb, genpoly[eclen - j], f, g[eclen - j]);
        ecbuf[j - 1] := Add(ecbuf[j], t);
        j := j + 1;
      }
    } else {
      forall k | 0 <= k < eclen - 1 { ecbuf[k] := ecbuf[k + 1]; }
      ShiftByZero(ec, d, g);
    }
    if fb == 255 {
      ecbuf[eclen - 1] := 0;
    } else {
      GenNonzero(eclen, 0);
      assert genpoly[0] == genpoly[..][0];
      var t := TimesCoefficient(fb, genpoly[0], f, g[0]);
      ecbuf[eclen - 1] := t;
    }
    assert ecbuf[..eclen] == Shift(ec, d, g);
  }

  lemma ShiftEntries(ec: seq<bv8>, d: bv8, g: seq<bv8>)
    requires |ec| > 0 && |g| == |ec| + 1
    ensures forall k :: 0 <= k < |ec| - 1 ==> Shift(ec, d, g)[k] == Add(ec[k + 1], Mul(g[|ec| - 1 - k], Add(d, ec[0])))
    ensures Shift(ec, d, g)[|ec| - 1] == Mul(g[0], Add(d, ec[0]))
  {
    hide Mul, Add;
    AddLaws(Mul(g[0], Add(d, ec[0])), 0);
  }

  lemma ShiftByZero(ec: seq<bv8>, d: bv8, g: seq<bv8>)
    requires |ec| > 0 && |g| == |ec| + 1 && Add(d, ec[0]) == 0
    ensures Shift(ec, d, g) == ec[1..] + [0]
  {
    hide Mul, Add;
    forall k | 0 <= k < |ec| ensures Shift(ec, d, g)[k] == (ec[1..] + [0])[k] {
      MulUnits(g[|ec| - 1 - k]);
      AddLaws(if k + 1 < |ec| then ec[k + 1] else 0, 0);
    }
  }

  /** Computes the check bytes of a data block: the only ones that make it a codeword. */
  method AppendRs(data: array<bv8>, dlen: nat, ecbuf: array<bv8>, eclen: nat, genpoly: array<bv8>)
    requires dlen <= data.Length && 1 <= eclen <= 254 && eclen <= ecbuf.Length
    requires ecbuf != genpoly && ecbuf != data && GenLogs(genpoly[..], eclen)
    modifies ecbuf
    ensures ecbuf[..eclen] == CheckBytes(data[..dlen], Gen(eclen)) && ecbuf[eclen..] == old(ecbuf[eclen..])
    ensures Codeword(data[..dlen] + ecbuf[..eclen], eclen)
    ensures forall e: seq<bv8> :: |e| == eclen && Codeword(data[..dlen] + e, eclen) ==> e == ecbuf[..eclen]
  {
    hide Gen, Shift, Codeword, GenLogs;
    ghost var tail, logs := ecbuf[eclen..], genpoly[..];
    forall k | 0 <= k < eclen { ecbuf[k] := 0; }
    var i := 0;
    assert ecbuf[..eclen] == CheckBytes(data[..0], Gen(eclen));
    while i < dlen
      invariant 0 <= i <= dlen && genpoly[..] == logs
      invariant ecbuf[..eclen] == CheckBytes(data[..i], Gen(eclen)) && ecbuf[eclen..] == tail
    {
      assert data[..i + 1][..i] == data[..i];
      ShiftRegister(data[i], ecbuf, eclen, genpoly);
      i := i + 1;
    }
    EncodedIsCodeword(eclen, data[..dlen]);
    forall e: seq<bv8> | |e| == eclen && Codeword(data[..dlen] + e, eclen) ensures e == ecbuf[..eclen] {
      CheckBytesUnique(eclen, data[..dlen], e, ecbuf[..eclen]);
    }
  }
}
