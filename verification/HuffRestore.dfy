/** With codes of at most 31 bits the decoder restores the data: path numbers fit a 32-bit word, and the
    scan cannot pass the symbol being read. */
module HuffRestore {
  import opened Bits
  import opened HuffTree
  import opened HuffForest
  import opened HuffCodes
  import opened HuffNumber
  import opened HuffEncode
  import opened HuffDecode

  // ---- the stream, symbol by symbol ----

  lemma {:induction false} EncodedFront(t: HTree, data: seq<byte>)
    requires data != [] && forall d :: d in data ==> d in Ids(t)
    ensures Encoded(t, data) == PathTo(t, data[0]) + Encoded(t, data[1..])
  {
    hide PathTo;
    if |data| == 1 {
      assert data[..0] == data[1..] == [];
      assert Encoded(t, data) == [] + PathTo(t, data[0]);
    } else {
      var d, c := data[..|data| - 1], data[|data| - 1];
      EncodedFront(t, d);
      assert d[1..] == data[1..][..|data| - 2];
      assert Encoded(t, data[1..]) == Encoded(t, d[1..]) + PathTo(t, c);
    }
  }

  /** Every byte of the data has a code word. */
  ghost predicate Spelled(t: HTree, data: seq<byte>) {
    forall d :: d in data ==> d in Ids(t) && d in Symbols(t)
  }

  // ---- inside a code word ----

  /** A trie whose codes are between 1 and 31 bits long: path numbers fit a 32-bit word. */
  ghost predicate Compact(t: HTree) { Coding(t) && Depth(t) <= 31 }

  lemma CompactKey(t: HTree, m: nat)
    requires Compact(t) && m in Ids(t) && m < 256
    ensures Key(t, m) == HeapNumber(PathTo(t, m)) && 1 <= |PathTo(t, m)| <= 31 && m in Symbols(t)
  {
    hide Number, HeapNumber;
    CodingLength(t, m);
    PathsWithinDepth(t, m);
    ShortNumber(PathTo(t, m));
  }

  /** The decoder stands inside the code word of symbol `m`: it has read its prefix `q`, whose heap
      number is `k`, and all table entries skipped so far are smaller. */
  ghost predicate Inside(t: HTree, h: seq<nat>, m: nat, q: seq<bool>, k: nat, i: nat, j: nat) {
    && m in Ids(t) && m < 256 && q <= PathTo(t, m) && q != PathTo(t, m) && k == HeapNumber(q)
    && j <= i < |h| && forall x :: j <= x < i ==> h[x] < k
  }

  /** The entry of the symbol being read lies at or after the scan position. */
  lemma Target(t: HTree, h: seq<nat>, o: seq<byte>, j: nat, m: nat, q: seq<bool>, i: nat) returns (x: nat)
    requires DecodeTable(t, h, o, j) && Compact(t) && m in Ids(t) && m < 256 && q <= PathTo(t, m)
    requires j <= i <= 256 && forall y :: j <= y < i ==> h[y] < HeapNumber(q)
    ensures i <= x < 256 && o[x] == m && h[x] == HeapNumber(PathTo(t, m)) && HeapNumber(q) <= h[x]
  {
    hide Compact, Coding;
    assert Has(o, m);
    x :| 0 <= x < 256 && o[x] == m;
    assert h[x] == Key(t, o[x]);
    CompactKey(t, m);
    HeapNumberGrows(q, PathTo(t, m));
    HeapNumberGrows([], PathTo(t, m));
    assert h[x] > 0;
  }

  /** At the first entry not below `k`, equality holds exactly when the code word is complete. */
  lemma MatchDecides(t: HTree, h: seq<nat>, o: seq<byte>, j: nat, m: nat, q: seq<bool>, i: nat)
    requires DecodeTable(t, h, o, j) && Compact(t) && m in Ids(t) && m < 256
    requires q <= PathTo(t, m) && q != []
    requires j <= i < 256 && h[i] >= HeapNumber(q) && forall y :: j <= y < i ==> h[y] < HeapNumber(q)
    ensures h[i] == HeapNumber(q) <==> q == PathTo(t, m)
    ensures h[i] == HeapNumber(q) ==> o[i] == m
  {
    hide DecodeTable, Compact, Key, HeapNumber;
    TableSize(t, h, o, j);
    var x := Target(t, h, o, j, m, q, i);
    Ascends(t, h, o, j, i, x);
    EntryKey(t, h, o, j, i);
    HeapNumberGrows([], q);
    if h[i] == HeapNumber(q) {
      SameWord(t, o[i], m, q);
    }
  }

  /** An entry with the number of a path is that of the code word it leads to. */
  lemma SameWord(t: HTree, n: nat, m: nat, q: seq<bool>)
    requires Compact(t) && n < 256 && m < 256 && m in Ids(t) && q <= PathTo(t, m) && q != []
    requires Key(t, n) == HeapNumber(q)
    ensures n == m && q == PathTo(t, m)
  {
    HeapNumberGrows([], q);
    CompactKey(t, n);
    CompactKey(t, m);
    HeapNumberInjective(PathTo(t, n), q);
    PathsPrefixFree(t, n, m);
  }

  lemma EntryKey(t: HTree, h: seq<nat>, o: seq<byte>, j: nat, i: nat)
    requires DecodeTable(t, h, o, j) && i < |h|
    ensures |h| == |o| && h[i] == Key(t, o[i])
  {
  }

  /** Starting on a symbol. */
  lemma EnterSymbol(t: HTree, h: seq<nat>, o: seq<byte>, j: nat, m: nat)
    requires DecodeTable(t, h, o, j) && m in Ids(t) && m < 256
    ensures Inside(t, h, m, [], 0, j, j)
  {
    CodingLength(t, m);
  }

  /** One bit inside a code word: the scan stops in the table, and on a match only at the word's end. */
  lemma BitInside(t: HTree, h: seq<nat>, o: seq<byte>, j: nat, m: nat, q: seq<bool>, k: nat, i: nat)
    requires DecodeTable(t, h, o, j) && Compact(t) && Inside(t, h, m, q, k, i, j)
    ensures |q| < |PathTo(t, m)|
    ensures
      var b := PathTo(t, m)[|q|];
      var k' := Next(k, b);
      var i' := First(h, k', i);
      && i' < |h| && (h[i'] == k' <==> q + [b] == PathTo(t, m)) && (h[i'] == k' ==> o[i'] == m)
      && (h[i'] != k' ==> Inside(t, h, m, q + [b], k', i', j))
  {
    hide Compact, Coding, HeapNumber, Number, Next, First, Has, Key;
    var p := PathTo(t, m);
    var q' := q + [p[|q|]];
    assert p[..|q|] == q && p[..|q| + 1] == q';
    CompactKey(t, m);
    NumberStep(q, p[|q|]);
    ShortNumber(q);
    ShortNumber(q');
    HeapNumberGrows(q, q');
    var x := Target(t, h, o, j, m, q', i);
    MatchDecides(t, h, o, j, m, q', First(h, HeapNumber(q'), i));
  }

  /** The rest of a code word is read to its end and gives its symbol. */
  lemma {:induction false} WordRestored(t: HTree, h: seq<nat>, o: seq<byte>, j: nat,
                                        m: byte, q: seq<bool>, k: nat, i: nat, rest: seq<bool>, n: nat)
    requires DecodeTable(t, h, o, j) && Compact(t) && Inside(t, h, m, q, k, i, j) && n > 0
    ensures
      Decoded(h, o, j, PathTo(t, m)[|q|..] + rest, k, i, n) == Then([m], Decoded(h, o, j, rest, 0, j, n - 1))
    decreases |PathTo(t, m)| - |q|
  {
    hide Compact, Coding, HeapNumber, Next, First, Decoded, DecodeTable, Then, Keyed;
    TableSize(t, h, o, j);
    var p := PathTo(t, m);
    var bits := p[|q|..] + rest;
    BitInside(t, h, o, j, m, q, k, i);
    DecodedStep(h, o, j, bits, k, i, n);
    var q' := q + [p[|q|]];
    assert bits[1..] == p[|q'|..] + rest;
    if q' == p {
      assert bits[1..] == rest;
    } else {
      WordRestored(t, h, o, j, m, q', Next(k, p[|q|]), First(h, Next(k, p[|q|]), i), rest, n);
    }
  }

  /** The data are restored from every stream that begins with their code words. */
  lemma {:induction false} Restores(t: HTree, h: seq<nat>, o: seq<byte>, j: nat, data: seq<byte>, bits: seq<bool>)
    requires DecodeTable(t, h, o, j) && Compact(t) && Spelled(t, data) && Encoded(t, data) <= bits
    ensures |h| == |o| == 256 && Decoded(h, o, j, bits, 0, j, |data|) == Read(data)
  {
    hide Compact, Coding, HeapNumber, Next, First, DecodeTable, Inside;
    TableSize(t, h, o, j);
    if data != [] {
      EncodedFront(t, data);
      var p := PathTo(t, data[0]);
      var rest := bits[|p|..];
      assert Encoded(t, data[1..]) <= rest;
      assert bits == p + rest;
      EnterSymbol(t, h, o, j, data[0]);
      assert p[0..] == p;
      WordRestored(t, h, o, j, data[0], [], 0, j, rest, |data|);
      Restores(t, h, o, j, data[1..], rest);
      assert data == [data[0]] + data[1..];
    }
  }
}
