/** The decode table of heap-numbered paths, its insertion sort, and the decoder, for codes of up to 32 bits. */
module HuffDecode {
  import opened Arith
  import opened Bits
  import opened HuffTree
  import opened HuffForest
  import opened HuffCodes
  import opened HuffNumber
  import opened HuffEncode

  /** The table entry of byte value m: the number of its path, or 0 when it has no code. */
  ghost function Key(t: HTree, m: nat): nat {
    if m < 256 && m in Ids(t) then Number(PathTo(t, m)) else 0
  }

  /** A trie whose codes are between 1 and 32 bits long. */
  ghost predicate Coding(t: HTree) { WellNumbered(t) && t.Fork? && Depth(t) <= 32 }

  lemma CodingLength(t: HTree, m: nat)
    requires Coding(t) && m in Ids(t) && m < 256
    ensures 1 <= |PathTo(t, m)| <= 32 && m in Symbols(t)
  {
    SymbolsAreIds(t);
    PathsWithinDepth(t, m);
  }

  /** The code tables for every byte value. */
  ghost predicate Tables(t: HTree, code: seq<nat>, clen: seq<nat>) {
    && |code| == |clen| == 256
    && forall m :: 0 <= m < 256 ==>
      if m in Ids(t) then code[m] == Value(PathTo(t, m)) && clen[m] == |PathTo(t, m)|
      else code[m] == 0 && clen[m] == 0
  }

  lemma Pow2Half(n: nat)
    ensures n > 0 ==> Pow2(n) / 2 == Pow2(n - 1)
  {
  }

  /** The two increments of the C, each of them in a 32-bit word. */
  lemma NextIs(k: nat, b: bool)
    ensures Next(k, b) == ((2 * k + 1) % WORD + (if b then 1 else 0)) % WORD
  {
    var q, r := (2 * k + 1) / WORD, (2 * k + 1) % WORD;
    if b { DivModUnique(2 * k + 2, WORD, q + (r + 1) / WORD, (r + 1) % WORD); }
  }

  /** Walks a code word down the trie: k becomes the number of the path. */
  method PathNumber(code: nat, len: nat, ghost path: seq<bool>) returns (k: nat)
    requires code == Value(path) && len == |path| && 1 <= len <= 32
    ensures k == Number(path)
  {
    hide HeapNumber, Number, Next, Value, And, Pow2;
    k := 0;
    var mask := Pow2(len - 1);
    var i := 0;
    assert path[..0] == [];
    NumberStart();
    while i < len
      invariant 0 <= i <= len && (i < len ==> mask == Pow2(len - 1 - i)) && k == Number(path[..i])
    {
      NumberStep(path[..i], path[i]);
      assert path[..i] + [path[i]] == path[..i + 1];
      NextIs(k, path[i]);
      Pow2Half(len - 1 - i);
      BitOfValue(path, i);
      k := (k * 2 + 1) % WORD;
      if And(code, mask) != 0 {
        k := (k + 1) % WORD;
      }
      mask := mask / 2;
      i := i + 1;
    }
    assert path[..len] == path;
  }

  lemma NumberStart()
    ensures Number([]) == 0
  {
  }

  /** The unsorted decode table. */
  method BuildTable(code: array<nat>, clen: array<nat>, ghost t: HTree)
    returns (heap2: array<nat>, outc: array<byte>)
    requires code.Length == 256 && clen.Length == 256 && Tables(t, code[..], clen[..]) && Coding(t)
    ensures heap2.Length == 256 && outc.Length == 256 && fresh(heap2) && fresh(outc)
    ensures forall i :: 0 <= i < 256 ==> outc[i] == i && heap2[i] == Key(t, i)
  {
    hide Coding, WellNumbered, HeapNumber, Number;
    heap2 := new nat[256](_ => 0);
    outc := new byte[256](_ => 0);
    ghost var code0, clen0 := code[..], clen[..];
    var j := 0;
    while j < 256
      invariant 0 <= j <= 256 && code[..] == code0 && clen[..] == clen0
      invariant forall i :: 0 <= i < j ==> outc[i] == i && heap2[i] == Key(t, i)
      invariant forall i :: j <= i < 256 ==> heap2[i] == 0
    {
      outc[j] := j;
      assert code[j] == code0[j] && clen[j] == clen0[j];
      if j in Ids(t) { CodingLength(t, j); }
      NonzeroOr(code[j], clen[j]);
      if Or(code[j], clen[j]) != 0 {
        var k := PathNumber(code[j], clen[j], PathTo(t, j));
        heap2[j] := k;
      }
      j := j + 1;
    }
  }

  lemma {:induction false} NonzeroOr(x: nat, y: nat)
    ensures Or(x, y) == 0 <==> x == 0 && y == 0
    decreases x + y
  {
    if x != 0 && y != 0 { NonzeroOr(x / 2, y / 2); }
  }

  // ---- sorting the table ----

  ghost predicate AscendingTo(h: seq<nat>, n: nat) {
    n <= |h| && forall i, j :: 0 <= i < j < n ==> h[i] <= h[j]
  }

  /** Every entry carries the key of its byte value, and every byte value occurs. */
  ghost predicate Keyed(t: HTree, h: seq<nat>, o: seq<byte>) {
    && |h| == |o| == 256
    && (forall i :: 0 <= i < 256 ==> h[i] == Key(t, o[i]))
    && (forall m :: 0 <= m < 256 ==> Has(o, m))
  }

  ghost predicate Has(o: seq<byte>, m: nat) { exists i :: 0 <= i < |o| && o[i] == m }

  /** Insertion in progress: entry `j` is a hole to be filled with (k, c); the entries before
      `j` and those from `j+1` to `i` are ascending, the latter all above `k`. */
  ghost predicate Inserting(t: HTree, h: seq<nat>, o: seq<byte>, i: nat, j: nat, k: nat, c: byte) {
    && j <= i < 256 && |h| == |o| == 256 && Keyed(t, h[j := k], o[j := c])
    && (forall a, b :: 0 <= a < b <= i && a != j && b != j ==> h[a] <= h[b])
    && (forall b :: j < b <= i ==> h[b] > k)
  }

  lemma InsertStart(t: HTree, h: seq<nat>, o: seq<byte>, i: nat)
    requires Keyed(t, h, o) && AscendingTo(h, i) && i < 256
    ensures Inserting(t, h, o, i, i, h[i], o[i])
  {
    assert h[i := h[i]] == h && o[i := o[i]] == o;
  }

  lemma InsertShift(t: HTree, h: seq<nat>, o: seq<byte>, i: nat, j: nat, k: nat, c: byte)
    requires Inserting(t, h, o, i, j, k, c) && j > 0 && h[j - 1] > k
    ensures Inserting(t, h[j := h[j - 1]], o[j := o[j - 1]], i, j - 1, k, c)
  {
    var h', o' := h[j := h[j - 1]], o[j := o[j - 1]];
    var g, p := h[j := k], o[j := c];
    var g', p' := h'[j - 1 := k], o'[j - 1 := c];
    forall m | 0 <= m < 256 ensures Has(p', m) {
      assert Has(p, m);
      var x :| 0 <= x < 256 && p[x] == m;
      assert p'[if x == j then j - 1 else if x == j - 1 then j else x] == m;
    }
    forall x | 0 <= x < 256 ensures g'[x] == Key(t, p'[x]) {
      assert g[x] == Key(t, p[x]) && g[j - 1] == Key(t, p[j - 1]) && g[j] == Key(t, p[j]);
    }
  }

  lemma InsertEnd(t: HTree, h: seq<nat>, o: seq<byte>, i: nat, j: nat, k: nat, c: byte)
    requires Inserting(t, h, o, i, j, k, c) && (j > 0 ==> h[j - 1] <= k)
    ensures Keyed(t, h[j := k], o[j := c]) && AscendingTo(h[j := k], i + 1)
  {
  }

  /** The insertion sort of the two parallel tables. */
  method SortTable(heap2: array<nat>, outc: array<byte>, ghost t: HTree)
    requires heap2.Length == 256 && outc.Length == 256 && Keyed(t, heap2[..], outc[..])
    modifies heap2, outc
    ensures Keyed(t, heap2[..], outc[..]) && AscendingTo(heap2[..], 256)
  {
    hide Keyed, Inserting, AscendingTo;
    OneAscends(heap2[..]);
    var i := 1;
    while i < 256
      invariant 1 <= i <= 256 && Keyed(t, heap2[..], outc[..]) && AscendingTo(heap2[..], i)
    {
      var k := heap2[i];
      var c := outc[i];
      var j := i;
      InsertStart(t, heap2[..], outc[..], i);
      while j != 0 && heap2[j - 1] > k
        invariant 0 <= j <= i && Inserting(t, heap2[..], outc[..], i, j, k, c)
      {
        ghost var h: seq<nat>, o: seq<byte> := heap2[..], outc[..];
        InsertShift(t, h, o, i, j, k, c);
        heap2[j] := heap2[j - 1];
        outc[j] := outc[j - 1];
        assert heap2[..] == h[j := h[j - 1]] && outc[..] == o[j := o[j - 1]];
        j := j - 1;
      }
      ghost var h: seq<nat>, o: seq<byte> := heap2[..], outc[..];
      InsertEnd(t, h, o, i, j, k, c);
      heap2[j] := k;
      outc[j] := c;
      assert heap2[..] == h[j := k] && outc[..] == o[j := c];
      i := i + 1;
    }
  }

  lemma OneAscends(h: seq<nat>)
    requires |h| == 256
    ensures AscendingTo(h, 1)
  {
  }

  // ---- decoding ----

  /** The table the decoder scans: sorted, keyed, first non-zero entry at `j`. */
  ghost predicate DecodeTable(t: HTree, h: seq<nat>, o: seq<byte>, j: nat) {
    && Keyed(t, h, o) && AscendingTo(h, 256) && Coding(t)
    && j < 256 && h[j] != 0 && forall x :: 0 <= x < j ==> h[x] == 0
  }

  lemma TableSize(t: HTree, h: seq<nat>, o: seq<byte>, j: nat)
    requires DecodeTable(t, h, o, j)
    ensures |h| == |o| == 256 && j < 256
  {
  }

  lemma TableCoding(t: HTree, h: seq<nat>, o: seq<byte>, j: nat)
    requires DecodeTable(t, h, o, j)
    ensures Coding(t)
  {
  }

  lemma Ascends(t: HTree, h: seq<nat>, o: seq<byte>, j: nat, x: nat, y: nat)
    requires DecodeTable(t, h, o, j) && x <= y < |h|
    ensures h[x] <= h[y]
  {
  }

  /** Some entry of the table is not zero, so the search for the first one ends inside it. */
  lemma SomeKey(t: HTree, h: seq<nat>, o: seq<byte>) returns (x: nat)
    requires Keyed(t, h, o) && Coding(t)
    ensures x < 256 && |h| == 256 && h[x] != 0
  {
    hide Number, HeapNumber, Strip;
    var m := DepthReached(t.one);
    SymbolsAreIds(t.one);
    assert Has(o, m);
    x :| 0 <= x < 256 && o[x] == m;
    OneFirst(t, m);
  }

  lemma OneFirst(t: HTree, m: nat)
    requires Coding(t) && m in Ids(t.one) && m < 256
    ensures m in Ids(t) && Number(PathTo(t, m)) > 0
  {
    hide Number, HeapNumber;
    CodingLength(t, m);
    var p := PathTo(t, m);
    assert p[0];
    ShortNumber(p[1..]);
    if |p| <= 31 {
      ShortNumber(p);
      HeapNumberGrows([], p);
    } else {
      StripNumber(p);
    }
  }

  /** Finds the first character in the table. */
  method FindFirst(heap2: array<nat>, outc: array<byte>, ghost t: HTree) returns (j: nat)
    requires heap2.Length == 256 && outc.Length == 256 && Keyed(t, heap2[..], outc[..])
    requires AscendingTo(heap2[..], 256) && Coding(t)
    ensures DecodeTable(t, heap2[..], outc[..], j)
  {
    ghost var x := SomeKey(t, heap2[..], outc[..]);
    hide Coding, Keyed, AscendingTo;
    j := 0;
    while heap2[j] == 0
      invariant 0 <= j <= x && forall y :: 0 <= y < j ==> heap2[y] == 0
      decreases x - j
    {
      j := j + 1;
    }
  }

  /** What a run of the decoder comes to: the bytes restored, or astray outside the table or the stream. */
  datatype Reading = Astray | Read(data: seq<byte>)

  function Then(s: seq<byte>, r: Reading): Reading { if r.Astray? then Astray else Read(s + r.data) }

  /** The first entry from `i` on that is not below `k`. */
  function First(h: seq<nat>, k: nat, i: nat): (r: nat)
    requires i <= |h|
    ensures i <= r <= |h| && (r < |h| ==> h[r] >= k) && forall x :: i <= x < r ==> h[x] < k
    decreases |h| - i
  {
    if i == |h| || h[i] >= k then i else First(h, k, i + 1)
  }

  /** Reads `n` more bytes from `bits`, standing at number `k` with the scan at entry `i`. */
  function Decoded(h: seq<nat>, o: seq<byte>, j: nat, bits: seq<bool>, k: nat, i: nat, n: nat): Reading
    requires |o| == |h| && i <= |h| && j <= |h|
    decreases |bits|
  {
    if n == 0 then Read([])
    else if bits == [] then Astray
    else
      var k' := Next(k, bits[0]);
      var i' := First(h, k', i);
      if i' == |h| then Astray
      else if h[i'] == k' then Then([o[i']], Decoded(h, o, j, bits[1..], 0, j, n - 1))
      else Decoded(h, o, j, bits[1..], k', i', n)
  }

  /** The bits of the stream, from bit `p` on. */
  ghost function BitsFrom(comp: seq<byte>, p: nat): (r: seq<bool>)
    requires p <= 8 * |comp|
    ensures |r| == 8 * |comp| - p
  {
    seq(8 * |comp| - p, x requires 0 <= x < 8 * |comp| - p => StreamBit(comp, p + x))
  }

  lemma BitsAt(comp: seq<byte>, p: nat)
    requires p < 8 * |comp|
    ensures BitsFrom(comp, p)[0] == StreamBit(comp, p) && BitsFrom(comp, p)[1..] == BitsFrom(comp, p + 1)
  {
    hide StreamBit;
  }

  lemma ThenThen(a: seq<byte>, b: seq<byte>, r: Reading)
    ensures Then(a, Then(b, r)) == Then(a + b, r)
  {
    if r.Read? { assert a + (b + r.data) == (a + b) + r.data; }
  }

  /** The reading position `cp`, `mask` moves to the next bit. */
  lemma NextBitPlace(p: nat)
    ensures
      var mask := Pow2(7 - p % 8);
      && (mask > 1 ==> (p + 1) / 8 == p / 8 && mask / 2 == Pow2(7 - (p + 1) % 8))
      && (mask <= 1 ==> (p + 1) / 8 == p / 8 + 1 && 0x80 == Pow2(7 - (p + 1) % 8))
  {
    assert Pow2(7) == 128;
    if p % 8 == 7 {
      assert (p + 1) % 8 == 0 && Pow2(0) == 1;
    } else {
      assert (p + 1) % 8 == p % 8 + 1;
      assert Pow2(7 - p % 8) == 2 * Pow2(7 - (p % 8 + 1));
    }
  }

  /** One bit of the decoder's loop: the number moves to a child, and the scan to the first entry not below it. */
  method ReadBit(heap2: array<nat>, bit: bool, k0: nat, i0: nat) returns (k: nat, i: nat)
    requires i0 <= heap2.Length
    ensures k == Next(k0, bit) && i == First(heap2[..], k, i0)
  {
    hide Next;
    NextIs(k0, bit);
    k := (k0 * 2 + 1) % WORD;
    if bit {
      k := (k + 1) % WORD;
    }
    i := i0;
    while i < heap2.Length && heap2[i] < k
      invariant i0 <= i <= heap2.Length && First(heap2[..], k, i0) == First(heap2[..], k, i)
    {
      i := i + 1;
    }
  }

  /** Decodes the stream into the buffer. `ok` is false where the C would run on outside the table or the stream. */
  method Decode(data: array<byte>, comp: array<byte>, heap2: array<nat>, outc: array<byte>, j: nat) returns (ok: bool)
    requires heap2.Length == outc.Length && j < heap2.Length && data != comp && data != outc
    modifies data
    ensures
      Decoded(old(heap2[..]), outc[..], j, BitsFrom(comp[..], 0), 0, j, data.Length)
        == if ok then Read(data[..]) else Astray
  {
    hide Decoded, First, Next, Pow2, And, BitsFrom, StreamBit;
    ghost var h: seq<nat>, o: seq<byte>, c: seq<byte> := heap2[..], outc[..], comp[..];
    ghost var all := Decoded(h, o, j, BitsFrom(c, 0), 0, j, data.Length);
    ghost var p: nat := 0;
    var k: nat, i: nat, mask: nat, n: nat, cp: nat := 0, j, 0x80, 0, 0;
    Pow2At7();
    assert data[..0] == [];
    ThenNone(all);
    while n < data.Length
      invariant 0 <= n <= data.Length && i < |h| && p <= 8 * |c|
      invariant heap2[..] == h && outc[..] == o && comp[..] == c
      invariant all == Then(data[..n], Decoded(h, o, j, BitsFrom(c, p), k, i, data.Length - n))
      invariant cp == p / 8 && mask == Pow2(7 - p % 8)
      decreases 8 * |c| - p
    {
      ghost var k0, i0 := k, i;
      if cp == comp.Length {
        OutOfBits(h, o, j, c, k, i, data.Length - n);
        return false;
      }
      assert comp[cp] == c[cp];
      BitsAt(c, p);
      StreamBitIs(c, p);
      k, i := ReadBit(heap2, And(comp[cp], mask) != 0, k, i);
      DecodedStep(h, o, j, BitsFrom(c, p), k0, i0, data.Length - n);
      if i == heap2.Length {
        return false;
      }
      assert heap2[i] == h[i] && outc[i] == o[i];
      if k == heap2[i] {
        ThenThen(data[..n], [o[i]], Decoded(h, o, j, BitsFrom(c, p + 1), 0, j, data.Length - n - 1));
        data[n] := outc[i];
        n := n + 1;
        k := 0;
        i := j;
      }
      NextBitPlace(p);
      if mask > 1 {
        mask := mask / 2;
      } else {
        mask := 0x80;
        cp := cp + 1;
      }
      p := p + 1;
    }
    DecodedEnd(h, o, j, BitsFrom(c, p), k, i);
    assert data[..] == data[..n];
    ok := true;
  }

  lemma Pow2At7()
    ensures Pow2(7) == 0x80
  {
  }

  lemma ThenNone(r: Reading)
    ensures Then([], r) == r
  {
    if r.Read? { assert [] + r.data == r.data; }
  }

  lemma StreamBitIs(comp: seq<byte>, p: nat)
    requires p / 8 < |comp|
    ensures StreamBit(comp, p) == (And(comp[p / 8], Pow2(7 - p % 8)) != 0)
  {
  }

  lemma OutOfBits(h: seq<nat>, o: seq<byte>, j: nat, comp: seq<byte>, k: nat, i: nat, n: nat)
    requires |o| == |h| && i <= |h| && j <= |h| && n > 0
    ensures Decoded(h, o, j, BitsFrom(comp, 8 * |comp|), k, i, n) == Astray
  {
  }

  lemma DecodedStep(h: seq<nat>, o: seq<byte>, j: nat, bits: seq<bool>, k: nat, i: nat, n: nat)
    requires |o| == |h| && i <= |h| && j <= |h| && n > 0 && bits != []
    ensures
      var k' := Next(k, bits[0]);
      var i' := First(h, k', i);
      Decoded(h, o, j, bits, k, i, n) ==
        if i' == |h| then Astray
        else if h[i'] == k' then Then([o[i']], Decoded(h, o, j, bits[1..], 0, j, n - 1))
        else Decoded(h, o, j, bits[1..], k', i', n)
  {
    hide First, Next;
  }

  lemma DecodedEnd(h: seq<nat>, o: seq<byte>, j: nat, bits: seq<bool>, k: nat, i: nat)
    requires |o| == |h| && i <= |h| && j <= |h|
    ensures Decoded(h, o, j, bits, k, i, 0) == Read([])
  {
  }
}
