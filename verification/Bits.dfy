/** Bit strings and the numbers they write. */
module Bits {
  import opened Arith

  type byte = x: nat | x < 256

  /** The number written by the bits, first bit most significant. */
  function Value(bits: seq<bool>): nat {
    if bits == [] then 0
    else 2 * Value(bits[..|bits| - 1]) + (if bits[|bits| - 1] then 1 else 0)
  }

  lemma {:induction false} ValueBound(bits: seq<bool>)
    ensures Value(bits) < Pow2(|bits|)
  {
    if bits != [] { ValueBound(bits[..|bits| - 1]); }
  }

  /** A bit put in front counts as the power of two of what follows. */
  lemma {:induction false} ValueCons(b: bool, bits: seq<bool>)
    ensures Value([b] + bits) == (if b then Pow2(|bits|) else 0) + Value(bits)
  {
    if bits == [] {
      assert [b] + bits == [b];
    } else {
      var s := [b] + bits;
      assert s[..|s| - 1] == [b] + bits[..|bits| - 1];
      ValueCons(b, bits[..|bits| - 1]);
    }
  }

  /** Masking with a single bit tests that bit of the written number. */
  lemma {:induction false} BitOfValue(bits: seq<bool>, i: nat)
    requires i < |bits|
    ensures (And(Value(bits), Pow2(|bits| - 1 - i)) != 0) == bits[i]
  {
    var last := |bits| - 1;
    var front := bits[..last];
    if i == last {
      assert And(Value(bits) / 2, 0) == 0;
    } else {
      BitOfValue(front, i);
      assert Value(bits) / 2 == Value(front);
      assert Pow2(last - i) == 2 * Pow2(last - 1 - i);
      assert |front| - 1 - i == last - 1 - i;
    }
  }

  function Zeros(k: nat): (r: seq<bool>)
    ensures |r| == k
  {
    seq(k, _ => false)
  }

  lemma {:induction false} ValuePad(s: seq<bool>, k: nat)
    ensures Value(s + Zeros(k)) == Value(s) * Pow2(k)
  {
    if k == 0 {
      assert s + Zeros(0) == s;
    } else {
      var r := s + Zeros(k);
      assert r[..|r| - 1] == s + Zeros(k - 1) && !r[|r| - 1];
      ValuePad(s, k - 1);
      TwiceMul(Value(s), Pow2(k - 1));
    }
  }

  /** The k-bit word of a number. */
  function FixedWord(c: nat, k: nat): (r: seq<bool>)
    ensures |r| == k
  {
    if k == 0 then [] else FixedWord(c / 2, k - 1) + [c % 2 == 1]
  }

  lemma {:induction false} FixedWordValue(c: nat, k: nat)
    requires c < Pow2(k)
    ensures Value(FixedWord(c, k)) == c
  {
    if k > 0 {
      FixedWordValue(c / 2, k - 1);
      assert FixedWord(c, k)[..k - 1] == FixedWord(c / 2, k - 1);
    }
  }

  lemma {:induction false} ValueFixedWord(s: seq<bool>)
    ensures FixedWord(Value(s), |s|) == s
  {
    if s != [] {
      var n := |s| - 1;
      ValueFixedWord(s[..n]);
      assert s == s[..n] + [s[n]];
    }
  }

  lemma {:induction false} ValueConcat(a: seq<bool>, b: seq<bool>)
    ensures Value(a + b) == Value(a) * Pow2(|b|) + Value(b)
  {
    if b == [] {
      assert a + b == a;
    } else {
      var n := |b| - 1;
      assert (a + b)[..|a| + n] == a + b[..n];
      ValueConcat(a, b[..n]);
      TwiceMul(Value(a), Pow2(n));
    }
  }

  lemma TwiceMul(x: nat, p: nat)
    ensures x * (2 * p) == 2 * (x * p)
  {
  }

  /** Shifting a 16-bit word left drops its first bits. */
  lemma ShiftLeft(s: seq<bool>, k: nat)
    requires |s| == 16 && k <= 16
    ensures (Value(s) * Pow2(k)) % 0x1_0000 == Value(s[k..] + Zeros(k))
  {
    hide Value, Pow2, Zeros;
    var hi, lo := s[..k], s[k..];
    assert s == hi + lo;
    ValueConcat(hi, lo);
    ValuePad(lo, k);
    ValueBound(lo + Zeros(k));
    Pow2At16();
    Pow2Add(16 - k, k);
    ShiftArith(Value(hi), Value(lo), Pow2(16 - k), Pow2(k));
  }

  lemma ShiftArith(h: nat, l: nat, p: nat, q: nat)
    requires p * q == 0x1_0000 && l * q < 0x1_0000
    ensures ((h * p + l) * q) % 0x1_0000 == l * q
  {
    assert (h * p + l) * q == h * (p * q) + l * q;
    DivModUnique((h * p + l) * q, 0x1_0000, h, l * q);
  }

  lemma Pow2At16()
    ensures Pow2(16) == 0x1_0000 && Pow2(8) == 0x100
  {
    assert Pow2(8) == 0x100;
    Pow2Add(8, 8);
  }

  /** Shifting right keeps the first bits. */
  lemma ShiftRight(s: seq<bool>, k: nat)
    requires k <= |s|
    ensures Value(s) / Pow2(k) == Value(s[..|s| - k])
  {
    hide Value, Pow2;
    var hi, lo := s[..|s| - k], s[|s| - k..];
    assert s == hi + lo;
    ValueConcat(hi, lo);
    ValueBound(lo);
    DivModUnique(Value(s), Pow2(k), Value(hi), Value(lo));
  }

  /** `or` of a byte into a word whose low byte is clear. */
  lemma OrByte(hi: seq<bool>, o: byte)
    requires |hi| == 8
    ensures Or(Value(hi + Zeros(8)), o) == Value(hi + FixedWord(o, 8))
  {
    Pow2At16();
    ValuePad(hi, 8);
    FixedWordValue(o, 8);
    ValueConcat(hi, FixedWord(o, 8));
    OrDisjoint(Value(hi), 8, o);
  }

  /** Masking out the low byte. */
  lemma HighByte(s: seq<bool>)
    requires |s| == 16
    ensures And(Value(s), 0xFF00) == Value(s[..8]) * 0x100
  {
    Pow2At16();
    ShiftRight(s, 8);
    AndShifted8(Value(s), 0xFF);
    ValueBound(s[..8]);
    MaskOnes(Value(s[..8]), 8);
  }
}
