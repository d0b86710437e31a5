/** picojpeg's Huffman tables: canonical codes (Annex C of ITU-T T.81) and their bit-by-bit decoding. */
module JpegHuffman {
  import opened Arith
  import opened Bits
  import opened JpegBits

  // ---- canonical codes ----

  /** The first code of length l, given how many codes there are of each length. */
  function FirstCode(b: seq<byte>, l: nat): nat
    requires |b| == 16 && 1 <= l <= 17
  {
    if l == 1 then 0 else 2 * (FirstCode(b, l - 1) + b[l - 2])
  }

  /** The number of codes shorter than l. */
  function Before(b: seq<byte>, l: nat): nat
    requires |b| == 16 && 1 <= l <= 17
  {
    if l == 1 then 0 else Before(b, l - 1) + b[l - 2]
  }

  /** A list of code counts for which there are enough codes of every length, and at most 256 in all. */
  ghost predicate ValidCounts(b: seq<byte>) {
    && |b| == 16 && Before(b, 17) <= 256
    && forall l :: 1 <= l <= 16 ==> FirstCode(b, l) + b[l - 1] <= Pow2(l)
  }

  /** The code of sixteen one bits is in use. */
  ghost predicate AllOnesUsed(b: seq<byte>)
    requires |b| == 16
  {
    b[15] > 0 && FirstCode(b, 16) + b[15] == 0x1_0000
  }

  /** The code word of rank r among those of length l. */
  ghost function CodeWord(b: seq<byte>, l: nat, r: nat): (w: seq<bool>)
    requires |b| == 16 && 1 <= l <= 16
    ensures |w| == l
  {
    FixedWord(FirstCode(b, l) + r, l)
  }

  /** The counts of table K.3 of ITU-T T.81. */
  const K3: seq<byte> := [0, 1, 5, 1, 1, 1, 1, 1, 1, 0, 0, 0, 0, 0, 0, 0]

  lemma FirstCodesK3()
    ensures |K3| == 16 && FirstCode(K3, 2) == 0 && FirstCode(K3, 3) == 2 && FirstCode(K3, 4) == 14
    ensures FirstCode(K3, 5) == 30 && FirstCode(K3, 6) == 62 && FirstCode(K3, 7) == 126 && FirstCode(K3, 8) == 254
    ensures FirstCode(K3, 9) == 510
  {
    assert FirstCode(K3, 1) == 0;
    assert FirstCode(K3, 2) == 0;
    assert FirstCode(K3, 3) == 2;
    assert FirstCode(K3, 4) == 14;
    assert FirstCode(K3, 5) == 30;
    assert FirstCode(K3, 6) == 62;
    assert FirstCode(K3, 7) == 126;
    assert FirstCode(K3, 8) == 254;
  }

  /** The code words of that table: 00, 010, 011, 100, 101, 110, 1110, 11110, ... */
  lemma CodeWordsK3()
    ensures |K3| == 16 && CodeWord(K3, 2, 0) == [false, false]
    ensures CodeWord(K3, 3, 0) == [false, true, false] && CodeWord(K3, 3, 1) == [false, true, true]
    ensures CodeWord(K3, 3, 2) == [true, false, false] && CodeWord(K3, 3, 3) == [true, false, true]
    ensures CodeWord(K3, 3, 4) == [true, true, false] && CodeWord(K3, 4, 0) == [true, true, true, false]
    ensures CodeWord(K3, 5, 0) == [true, true, true, true, false]
    ensures CodeWord(K3, 9, 0) == [true, true, true, true, true, true, true, true, false]
  {
    hide FirstCode, FixedWord, K3;
    FirstCodesK3();
    AppendBit(0, 1, false);
    AppendBit(0, 1, true);
    AppendBit(0, 0, false);
    AppendBit(0, 0, true);
    AppendBit(1, 1, true);
    AppendBit(1, 1, false);
    AppendBit(1, 2, false);
    AppendBit(1, 2, true);
    AppendBit(2, 2, false);
    AppendBit(2, 2, true);
    AppendBit(3, 2, false);
    AppendBit(3, 2, true);
    AppendBit(7, 3, false);
    AppendBit(7, 3, true);
    AppendBit(15, 4, false);
    AppendBit(15, 4, true);
    AppendBit(31, 5, true);
    AppendBit(63, 6, true);
    AppendBit(127, 7, true);
    AppendBit(255, 8, false);
  }

  lemma AppendBit(c: nat, k: nat, bit: bool)
    ensures FixedWord(2 * c + (if bit then 1 else 0), k + 1) == FixedWord(c, k) + [bit] && FixedWord(c, 0) == []
  {
  }

  lemma {:induction false} BeforeGrows(b: seq<byte>, l: nat, m: nat)
    requires |b| == 16 && 1 <= l <= m <= 17
    ensures Before(b, l) <= Before(b, m)
  {
    if l < m { BeforeGrows(b, l, m - 1); }
  }

  /** Codes of length m start beyond all extensions of shorter ones. */
  lemma {:induction false} FirstCodeGrows(b: seq<byte>, l: nat, m: nat)
    requires |b| == 16 && 1 <= l < m <= 16
    ensures FirstCode(b, m) >= (FirstCode(b, l) + b[l - 1]) * Pow2(m - l)
  {
    var x := FirstCode(b, l) + b[l - 1];
    if l + 1 == m {
      assert Pow2(1) == 2;
    } else {
      FirstCodeGrows(b, l, m - 1);
      TwiceMul(x, Pow2(m - l - 1));
    }
  }

  // ---- the table ----

  // The fields huffCreate stores for length i+1, of 16 and 8 bits; 0xFFFF marks a length without codes.

  function MinField(b: seq<byte>, i: nat): nat
    requires |b| == 16 && i < 16
  {
    if b[i] == 0 then 0 else FirstCode(b, i + 1) % 0x1_0000
  }

  function MaxField(b: seq<byte>, i: nat): nat
    requires |b| == 16 && i < 16
  {
    if b[i] == 0 then 0xFFFF else (FirstCode(b, i + 1) + b[i] - 1) % 0x1_0000
  }

  function PtrField(b: seq<byte>, i: nat): nat
    requires |b| == 16 && i < 16
  {
    if b[i] == 0 then 0 else Before(b, i + 1) % 0x100
  }

  ghost predicate Entry(b: seq<byte>, i: nat, min: nat, max: nat, ptr: nat)
    requires |b| == 16 && i < 16
  {
    min == MinField(b, i) && max == MaxField(b, i) && ptr == PtrField(b, i)
  }

  class HuffTable {
    const mMinCode: array<nat>
    const mMaxCode: array<nat>
    const mValPtr: array<nat>

    ghost predicate Shape() {
      && mMinCode.Length == 16 && mMaxCode.Length == 16 && mValPtr.Length == 16
      && mMinCode != mMaxCode && mMinCode != mValPtr && mMaxCode != mValPtr
    }

    ghost predicate Holds(b: seq<byte>, n: nat)
      requires Shape() && |b| == 16 && n <= 16
      reads mMinCode, mMaxCode, mValPtr
    {
      forall i :: 0 <= i < n ==> Entry(b, i, mMinCode[i], mMaxCode[i], mValPtr[i])
    }

    constructor ()
      ensures Shape() && fresh(mMinCode) && fresh(mMaxCode) && fresh(mValPtr)
    {
      mMinCode := new nat[16](_ => 0);
      mMaxCode := new nat[16](_ => 0);
      mValPtr := new nat[16](_ => 0);
    }

    /** huffCreate, for any list of counts. */
    method Create(pBits: seq<byte>)
      requires Shape() && |pBits| == 16
      modifies mMinCode, mMaxCode, mValPtr
      ensures Holds(pBits, 16)
    {
      hide FirstCode, Before, Pow2, Entry;
      var i, j: nat, code: nat := 0, 0, 0;
      CodeStart(pBits);
      while true
        invariant 0 <= i < 16 && Holds(pBits, i)
        invariant code == FirstCode(pBits, i + 1) % 0x1_0000 && j == Before(pBits, i + 1) % 0x100
        decreases 16 - i
      {
        CodeStep(pBits, i, code, j);
        ghost var mn, mx, vp := mMinCode[..], mMaxCode[..], mValPtr[..];
        var num := pBits[i];
        if num == 0 {
          mMinCode[i] := 0x0000;
          mMaxCode[i] := 0xFFFF;
          mValPtr[i] := 0;
        } else {
          mMinCode[i] := code;
          mMaxCode[i] := (code + num - 1) % 0x1_0000;
          mValPtr[i] := j;
          j := (j + num) % 0x100;
          code := (code + num) % 0x1_0000;
        }
        assert forall k :: 0 <= k < i ==> mMinCode[k] == mn[k] && mMaxCode[k] == mx[k] && mValPtr[k] == vp[k];
        code := (code * 2) % 0x1_0000;
        i := i + 1;
        if i > 15 {
          break;
        }
      }
    }

    lemma CodeStart(b: seq<byte>)
      requires |b| == 16
      ensures FirstCode(b, 1) == 0 && Before(b, 1) == 0
    {
    }

    lemma CodeStep(b: seq<byte>, i: nat, code: nat, j: nat)
      requires |b| == 16 && i < 16 && code == FirstCode(b, i + 1) % 0x1_0000 && j == Before(b, i + 1) % 0x100
      ensures
        var num := b[i];
        && (num == 0 ==> Entry(b, i, 0, 0xFFFF, 0))
        && (num != 0 ==> Entry(b, i, code, (code + num - 1) % 0x1_0000, j))
        && (num == 0 ==> code * 2 % 0x1_0000 == FirstCode(b, i + 2) % 0x1_0000 && j == Before(b, i + 2) % 0x100)
        && (num != 0 ==> (code + num) % 0x1_0000 * 2 % 0x1_0000 == FirstCode(b, i + 2) % 0x1_0000)
        && (num != 0 ==> (j + num) % 0x100 == Before(b, i + 2) % 0x100)
    {
      hide FirstCode, Before;
      CountsStep(b, i);
      WrapCode(FirstCode(b, i + 1), b[i], code);
      WrapCount(Before(b, i + 1), b[i], j);
    }

    lemma CountsStep(b: seq<byte>, i: nat)
      requires |b| == 16 && i < 16
      ensures Before(b, i + 2) == Before(b, i + 1) + b[i] && FirstCode(b, i + 2) == 2 * (FirstCode(b, i + 1) + b[i])
    {
    }

    lemma WrapCode(first: nat, num: nat, code: nat)
      requires code == first % 0x1_0000
      ensures num == 0 ==> code * 2 % 0x1_0000 == 2 * (first + num) % 0x1_0000
      ensures num != 0 ==> (code + num - 1) % 0x1_0000 == (first + num - 1) % 0x1_0000
      ensures num != 0 ==> (code + num) % 0x1_0000 * 2 % 0x1_0000 == 2 * (first + num) % 0x1_0000
    {
      var q, p := first / 0x1_0000, (code + num) / 0x1_0000;
      SameMod(2 * (first + num), 2 * q, 2 * (code + num));
      SameMod(2 * (code + num), 2 * p, (code + num) % 0x1_0000 * 2);
      if num != 0 { SameMod(first + num - 1, q, code + num - 1); }
    }

    lemma SameMod(x: nat, q: nat, y: nat)
      requires x == 0x1_0000 * q + y
      ensures x % 0x1_0000 == y % 0x1_0000
    {
    }

    lemma WrapCount(before: nat, num: nat, j: nat)
      requires j == before % 0x100
      ensures (j + num) % 0x100 == (before + num) % 0x100
    {
    }
  }

  lemma BeforeStep(b: seq<byte>, l: nat)
    requires |b| == 16 && 1 <= l <= 16
    ensures Before(b, l + 1) == Before(b, l) + b[l - 1]
  {
  }

  /** For valid counts nothing is cut off by the fields. */
  lemma ValidEntry(b: seq<byte>, i: nat, min: nat, max: nat, ptr: nat)
    requires ValidCounts(b) && i < 16 && Entry(b, i, min, max, ptr) && b[i] > 0
    ensures min == FirstCode(b, i + 1) && max == FirstCode(b, i + 1) + b[i] - 1 < 0x1_0000 && ptr == Before(b, i + 1)
    ensures Before(b, i + 1) + b[i] <= 256
  {
    hide Pow2, FirstCode, Before;
    Pow2At16();
    Pow2Grows(i + 1, 16);
    BeforeGrows(b, i + 2, 17);
    BeforeStep(b, i + 1);
    assert FirstCode(b, i + 1) + b[i] <= Pow2(i + 1);
  }

  // ---- decoding ----

  /** The comparison that ends the decoding loop at length l. */
  ghost predicate Matches(b: seq<byte>, s: seq<bool>, l: nat)
    requires |b| == 16 && 1 <= l <= 16 && l <= |s|
  {
    Value(s[..l]) <= MaxField(b, l - 1) && MaxField(b, l - 1) != 0xFFFF
  }

  /** Where the loop ends at length l, the place of the symbol in the list of values, in eight bits. */
  ghost function Index(b: seq<byte>, s: seq<bool>, l: nat): nat
    requires |b| == 16 && 1 <= l <= 16 && l <= |s|
  {
    (PtrField(b, l - 1) + (Value(s[..l]) - MinField(b, l - 1))) % 0x100
  }

  /** The length at which decoding of the bits `s` ends, trying lengths from l on; 0 when it fails. */
  ghost function MatchFrom(b: seq<byte>, s: seq<bool>, l: nat): nat
    requires |b| == 16 && 1 <= l <= 17 && |s| >= 16
    decreases 17 - l
  {
    if l == 17 then 0 else if Matches(b, s, l) then l else MatchFrom(b, s, l + 1)
  }

  /** No length below l ends the loop, so the bits read are not below the codes of length l. */
  lemma {:induction false} NotBelow(b: seq<byte>, s: seq<bool>, l: nat)
    requires |b| == 16 && ValidCounts(b) && |s| >= 16 && 1 <= l <= 16 && forall m :: 1 <= m < l ==> !Matches(b, s, m)
    ensures Value(s[..l]) >= FirstCode(b, l)
  {
    hide FirstCode, Pow2, ValidCounts;
    FirstCodeStart(b);
    if l > 1 {
      NotBelow(b, s, l - 1);
      assert s[..l][..l - 1] == s[..l - 1];
      assert !Matches(b, s, l - 1);
      ShortMax(b, l - 1);
      FirstCodeStep(b, l);
    }
  }

  lemma FirstCodeStart(b: seq<byte>)
    requires |b| == 16
    ensures FirstCode(b, 1) == 0
  {
  }

  lemma FirstCodeStep(b: seq<byte>, l: nat)
    requires |b| == 16 && 2 <= l <= 16
    ensures FirstCode(b, l) == 2 * (FirstCode(b, l - 1) + b[l - 2])
  {
  }

  lemma {:induction false} MatchSkips(b: seq<byte>, s: seq<bool>, l: nat, from: nat)
    requires |b| == 16 && |s| >= 16 && 1 <= from <= l <= 16 && Matches(b, s, l)
    requires forall m :: from <= m < l ==> !Matches(b, s, m)
    ensures MatchFrom(b, s, from) == l
    decreases l - from
  {
    if from < l { MatchSkips(b, s, l, from + 1); }
  }

  lemma {:induction false} MatchFails(b: seq<byte>, s: seq<bool>, from: nat)
    requires |b| == 16 && |s| >= 16 && 1 <= from <= 17 && forall m :: from <= m <= 16 ==> !Matches(b, s, m)
    ensures MatchFrom(b, s, from) == 0
    decreases 17 - from
  {
    if from < 17 { MatchFails(b, s, from + 1); }
  }

  lemma {:induction false} MatchFound(b: seq<byte>, s: seq<bool>, from: nat)
    requires |b| == 16 && |s| >= 16 && 1 <= from <= 17
    ensures
      var l := MatchFrom(b, s, from);
      && (l != 0 ==> from <= l <= 16 && Matches(b, s, l) && forall m :: from <= m < l ==> !Matches(b, s, m))
      && (l == 0 ==> forall m :: from <= m <= 16 ==> !Matches(b, s, m))
    decreases 17 - from
  {
    if from < 17 { MatchFound(b, s, from + 1); }
  }

  /** Bits that begin with a code word do not match at any shorter length. */
  lemma NoShorterMatch(b: seq<byte>, s: seq<bool>, l: nat, r: nat, m: nat)
    requires ValidCounts(b) && |s| >= 16 && 1 <= m < l <= 16 && r < b[l - 1] && s[..l] == CodeWord(b, l, r)
    ensures !Matches(b, s, m)
  {
    hide Value, FixedWord, FirstCode, Pow2;
    var c := FirstCode(b, l) + r;
    FixedWordValue(c, l);
    ShiftRight(s[..l], l - m);
    assert s[..l][..m] == s[..m];
    FirstCodeGrows(b, m, l);
    DivAtLeast(c, FirstCode(b, m) + b[m - 1], Pow2(l - m));
  }

  lemma DivAtLeast(c: nat, x: nat, p: nat)
    requires p > 0 && c >= x * p
    ensures c / p >= x
  {
    assert c < (c / p + 1) * p;
    if c / p < x { MulLe(c / p + 1, p, x, p); }
  }

  lemma CodeFits(b: seq<byte>, l: nat, r: nat)
    requires ValidCounts(b) && 1 <= l <= 16 && r < b[l - 1]
    ensures Value(CodeWord(b, l, r)) == FirstCode(b, l) + r
  {
    hide Value, FixedWord, Pow2, FirstCode;
    FixedWordValue(FirstCode(b, l) + r, l);
  }

  /** The largest of the codes of 16 bits is the marker when it is all ones. */
  lemma LongestFails(b: seq<byte>, s: seq<bool>)
    requires |b| == 16 && |s| >= 16 && AllOnesUsed(b)
    ensures !Matches(b, s, 16)
  {
    hide Value, FirstCode;
  }

  lemma ItselfMatches(b: seq<byte>, s: seq<bool>, l: nat, r: nat)
    requires ValidCounts(b) && |s| >= 16 && 1 <= l <= 16 && r < b[l - 1] && Value(s[..l]) == FirstCode(b, l) + r
    requires !(l == 16 && AllOnesUsed(b))
    ensures Matches(b, s, l)
  {
    hide Value, Pow2, FirstCode;
    Pow2At16();
    if l < 16 { ShortMax(b, l); }
  }

  /** Main result: on a symbol's code word the loop ends at exactly its length and yields its rank,
      unless the word has 16 bits and the all-ones code is in use, whose largest code is the marker
      for "no codes of this length". */
  lemma DecodesCode(b: seq<byte>, s: seq<bool>, l: nat, r: nat)
    requires ValidCounts(b) && |s| >= 16 && 1 <= l <= 16 && r < b[l - 1] && s[..l] == CodeWord(b, l, r)
    ensures MatchFrom(b, s, 1) == if l == 16 && AllOnesUsed(b) then 0 else l
    ensures Value(s[..l]) - FirstCode(b, l) == r
  {
    hide Matches, MatchFrom, Value, FixedWord, Pow2, FirstCode;
    CodeFits(b, l, r);
    forall m | 1 <= m < l ensures !Matches(b, s, m) { NoShorterMatch(b, s, l, r, m); }
    if l == 16 && AllOnesUsed(b) {
      LongestFails(b, s);
      MatchFails(b, s, 1);
    } else {
      ItselfMatches(b, s, l, r);
      MatchSkips(b, s, l, 1);
    }
  }

  // ---- a table that uses the code of sixteen ones ----

  const ALL_ONES: seq<byte> := [1, 1, 1, 1, 1, 1, 1, 1, 1, 1, 1, 1, 1, 1, 1, 2]

  lemma {:induction false} AllOnesCodes(l: nat)
    requires 1 <= l <= 16
    ensures FirstCode(ALL_ONES, l) == Pow2(l) - 2 && Before(ALL_ONES, l) == l - 1
  {
    if l > 1 { AllOnesCodes(l - 1); }
  }

  /** These counts are valid, yet the second symbol of length 16 is not decoded from its code. */
  lemma AllOnesFails(s: seq<bool>)
    requires |s| >= 16 && s[..16] == CodeWord(ALL_ONES, 16, 1)
    ensures ValidCounts(ALL_ONES) && MatchFrom(ALL_ONES, s, 1) == 0
  {
    hide FirstCode, Before, Pow2, CodeWord, MatchFrom;
    Pow2At16();
    forall l | 1 <= l <= 16
      ensures FirstCode(ALL_ONES, l) + ALL_ONES[l - 1] <= Pow2(l)
    {
      AllOnesCodes(l);
    }
    AllOnesCodes(16);
    BeforeStep(ALL_ONES, 16);
    DecodesCode(ALL_ONES, s, 16, 1);
  }

  lemma ShortMax(b: seq<byte>, l: nat)
    requires ValidCounts(b) && 1 <= l < 16
    ensures FirstCode(b, l) + b[l - 1] <= 0x8000
  {
    hide FirstCode, Pow2;
    Pow2At16();
    Pow2Add(15, 1);
    Pow2At32();
    Pow2Grows(l, 15);
  }

  /** Conversely, where the loop ends it has read a code word. */
  lemma EndsAtCode(b: seq<byte>, s: seq<bool>)
    requires ValidCounts(b) && |s| >= 16 && MatchFrom(b, s, 1) != 0
    ensures
      var l := MatchFrom(b, s, 1);
      && 1 <= l <= 16 && FirstCode(b, l) <= Value(s[..l]) < FirstCode(b, l) + b[l - 1]
      && Index(b, s, l) == Before(b, l) + (Value(s[..l]) - FirstCode(b, l)) < Before(b, 17)
  {
    hide FirstCode, Before, Pow2, Value, MatchFrom;
    MatchFound(b, s, 1);
    var l := MatchFrom(b, s, 1);
    NotBelow(b, s, l);
    BeforeGrows(b, l + 1, 17);
    BeforeStep(b, l);
    if b[l - 1] > 0 { ValidEntry(b, l - 1, MinField(b, l - 1), MaxField(b, l - 1), PtrField(b, l - 1)); }
  }

  /** The next bit after the first k. */
  lemma NextBit(h: seq<bool>, c: Chars, h1: seq<bool>, c1: Chars, k: nat)
    requires k < 17 && Moved(h, c, h1, c1, true, k)
    ensures Ahead(h1, c1, true, 1)[0] == Ahead(h, c, true, 17)[k]
  {
    hide Ahead;
    AheadPrefix(h, c, k + 1, 17);
    assert Ahead(h1, c1, true, 1) == Ahead(h, c, true, k + 1)[k..];
  }

  lemma AheadPrefix(h: seq<bool>, c: Chars, n: nat, m: nat)
    requires n <= m
    ensures Ahead(h, c, true, m)[..n] == Ahead(h, c, true, n)
  {
    OctetBitsPrefix(c, true, n, m);
  }

  /** The code read so far takes in one more bit. */
  lemma CodeGrows(s: seq<bool>, k: nat, code: nat, bit: nat)
    requires k < 17 == |s| && code == Value(s[..k]) % 0x1_0000 && bit == if s[k] then 1 else 0
    ensures (code * 2) % 0x1_0000 % 2 == 0 && (code * 2) % 0x1_0000 + bit == Value(s[..k + 1]) % 0x1_0000
  {
    hide Value;
    ValueStep(s, k);
    WrapTwice(Value(s[..k]), code, bit);
  }

  lemma ValueStep(s: seq<bool>, k: nat)
    requires k < |s|
    ensures Value(s[..k + 1]) == 2 * Value(s[..k]) + (if s[k] then 1 else 0)
  {
    assert s[..k + 1][..k] == s[..k];
  }

  lemma WrapTwice(v: nat, code: nat, bit: nat)
    requires code == v % 0x1_0000 && bit < 2
    ensures (code * 2) % 0x1_0000 % 2 == 0 && (code * 2) % 0x1_0000 + bit == (2 * v + bit) % 0x1_0000
  {
    var q := v / 0x1_0000;
    assert 2 * v + bit == 0x1_0000 * (2 * q) + (2 * code + bit);
    if code >= 0x8000 {
      assert 2 * v + bit == 0x1_0000 * (2 * q + 1) + (2 * code - 0x1_0000 + bit);
    }
  }

  /** Up to 16 bits of code nothing is cut off. */
  lemma CodeValue(s: seq<bool>, i: nat, code: nat)
    requires i < 16 && |s| == 17 && code == Value(s[..i + 1]) % 0x1_0000
    ensures code == Value(s[..i + 1])
  {
    hide Pow2;
    ValueBound(s[..i + 1]);
    Pow2Grows(i + 1, 16);
    Pow2At16();
  }

  /** What the next bits should decode to: the word of rank k of length l. */
  ghost predicate Spells(b: seq<byte>, h: seq<bool>, c: Chars, l: nat, k: nat)
    requires |b| == 16
  {
    1 <= l <= 16 && k < b[l - 1] && Ahead(h, c, true, l) == CodeWord(b, l, k)
  }

  /** If the next bits are the code word of rank k of length l, the loop ends there, at the symbol's
      place; the all-ones case is the only one in which this is not so. */
  lemma SymbolDecoded(b: seq<byte>, h: seq<bool>, c: Chars, l: nat, k: nat)
    requires |b| == 16 && ValidCounts(b) && Spells(b, h, c, l, k)
    ensures
      var s := Ahead(h, c, true, 17);
      && 1 <= l <= 16 && (MatchFrom(b, s, 1) == if l == 16 && AllOnesUsed(b) then 0 else l)
      && (MatchFrom(b, s, 1) != 0 ==> Index(b, s, l) == Before(b, l) + k < Before(b, 17))
  {
    hide Value, FirstCode, Before, Pow2, MatchFrom, MinField, MaxField, PtrField, ValidCounts, Ahead, AllOnesUsed,
         CodeWord;
    AheadPrefix(h, c, l, 17);
    DecodesCode(b, Ahead(h, c, true, 17), l, k);
    if MatchFrom(b, Ahead(h, c, true, 17), 1) != 0 { EndsAtCode(b, Ahead(h, c, true, 17)); }
  }

  /** huffDecode, for the table of any counts: reads bits until a length matches and returns the symbol
      found there. When no length matches, 17 bits are gone and the result is 0. `inside` is false
      where the C would read the symbol from outside the list of values.
      With valid counts every code word is read to its end, and no further, and gives its own symbol,
      except those of 16 bits when the code of sixteen ones is in use. */
  method HuffDecode(reader: Reader, table: HuffTable, huffVal: array<byte>, ghost b: seq<byte>)
    returns (r: byte, inside: bool)
    requires reader.Valid() && |b| == 16 && table.Shape() && table.Holds(b, 16)
    requires reader.inBuf != huffVal && reader.inBuf as object != table.mMinCode
    requires reader.inBuf as object != table.mMaxCode && reader.inBuf as object != table.mValPtr
    modifies reader, reader.inBuf
    ensures reader.Valid()
    ensures
      var s := old(Ahead(reader.held, reader.Input(), true, 17));
      var l := MatchFrom(b, s, 1);
      if l == 0 then
        r == 0 && inside && Moved(old(reader.held), old(reader.Input()), reader.held, reader.Input(), true, 17)
      else
        && 1 <= l <= 16 && Moved(old(reader.held), old(reader.Input()), reader.held, reader.Input(), true, l)
        && (inside <==> Index(b, s, l) < huffVal.Length)
        && (inside ==> r == huffVal[Index(b, s, l)])
    ensures ValidCounts(b) && Before(b, 17) <= huffVal.Length ==> inside
    ensures
      forall l, k ::
        old(Spells(b, reader.held, reader.Input(), l, k))
        && ValidCounts(b) && Before(b, 17) <= huffVal.Length && !(l == 16 && AllOnesUsed(b)) ==>
          && Before(b, l) + k < huffVal.Length && r == huffVal[Before(b, l) + k]
          && Moved(old(reader.held), old(reader.Input()), reader.held, reader.Input(), true, l)
  {
    hide Ahead, Moved, Value, FirstCode, Before, Pow2, MatchFrom, MinField, MaxField, PtrField, ValidCounts, Spells,
         AllOnesUsed;
    ghost var h, c := reader.held, reader.Input();
    ghost var s := Ahead(h, c, true, 17);
    forall l, k | Spells(b, h, c, l, k) && ValidCounts(b) && !(l == 16 && AllOnesUsed(b))
      ensures MatchFrom(b, s, 1) == l && 1 <= l <= 16 && Index(b, s, l) == Before(b, l) + k < Before(b, 17)
    {
      SymbolDecoded(b, h, c, l, k);
    }
    FirstBit(h, c);
    var i := 0;
    var bit := reader.GetBit();
    var code: nat := bit;
    CodeGrows(s, 0, 0, bit);
    while true
      invariant 0 <= i <= 16 && reader.Valid() && table.Holds(b, 16)
      invariant Moved(h, c, reader.held, reader.Input(), true, i + 1)
      invariant code == Value(s[..i + 1]) % 0x1_0000 && forall m :: 1 <= m <= i ==> !Matches(b, s, m)
      decreases 16 - i
    {
      if i == 16 {
        MatchFails(b, s, 1);
        return 0, true;
      }
      var maxCode := table.mMaxCode[i];
      CodeValue(s, i, code);
      assert Entry(b, i, table.mMinCode[i], maxCode, table.mValPtr[i]);
      if code <= maxCode && maxCode != 0xFFFF {
        break;
      }
      i := i + 1;
      NextBit(h, c, reader.held, reader.Input(), i);
      ghost var h1, c1 := reader.held, reader.Input();
      bit := reader.GetBit();
      MovedTwice(h, c, h1, c1, reader.held, reader.Input(), true, i, 1);
      CodeGrows(s, i, code, bit);
      code := (code * 2) % 0x1_0000;
      OrLowBit(code, bit);
      code := Or(code, bit);
    }
    MatchSkips(b, s, i + 1, 1);
    if ValidCounts(b) { EndsAtCode(b, s); }
    var j := table.mValPtr[i];
    j := (j + (code - table.mMinCode[i])) % 0x100;
    if j < huffVal.Length {
      r, inside := huffVal[j], true;
    } else {
      r, inside := 0, false;
    }
  }

  lemma FirstBit(h: seq<bool>, c: Chars)
    ensures Ahead(h, c, true, 1)[0] == Ahead(h, c, true, 17)[0] && Value(Ahead(h, c, true, 17)[..0]) == 0
  {
    hide Ahead;
    AheadPrefix(h, c, 1, 17);
    assert Ahead(h, c, true, 17)[..0] == [];
  }
}
