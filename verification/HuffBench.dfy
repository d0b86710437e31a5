/** The whole of huffbench's `compdecomp`: compress a buffer, decompress it over itself. */
module HuffBench {
  import opened Arith
  import opened Bits
  import opened HuffTree
  import opened HuffOptimal
  import opened HuffPrefix
  import opened HuffHeap
  import opened HuffForest
  import opened HuffBuild
  import opened HuffCodes
  import opened HuffEncode
  import opened HuffDecode
  import opened HuffRestore
  import opened HuffLoss

  // ---- the compressed size ----

  /** Bits spent on each byte value. */
  ghost function SpentOn(t: HTree, data: seq<byte>): (r: seq<nat>)
    ensures |r| == 256
  {
    seq(256, c requires 0 <= c < 256 => if c in Ids(t) then Count(data, c) * |PathTo(t, c)| else 0)
  }

  lemma SpentOnNext(t: HTree, data: seq<byte>)
    requires data != [] && data[|data| - 1] in Ids(t)
    ensures
      var d, c := data[..|data| - 1], data[|data| - 1];
      SpentOn(t, data) == SpentOn(t, d)[c := SpentOn(t, d)[c] + |PathTo(t, c)|]
  {
    hide Ids, PathTo;
    var d, c := data[..|data| - 1], data[|data| - 1];
    var l := |PathTo(t, c)|;
    assert (Count(d, c) + 1) * l == Count(d, c) * l + l;
  }

  lemma {:induction false} EncodedLength(t: HTree, data: seq<byte>)
    requires forall d :: d in data ==> d in Ids(t)
    ensures |Encoded(t, data)| == Sum(SpentOn(t, data))
  {
    if data == [] {
      AllZero(SpentOn(t, data));
    } else {
      var d, c := data[..|data| - 1], data[|data| - 1];
      EncodedLength(t, d);
      SpentOnNext(t, data);
      SumUpdate(SpentOn(t, d), c, SpentOn(t, d)[c] + |PathTo(t, c)|);
    }
  }

  /** The plain code: eight bits for every symbol. */
  ghost function Octets(occ: seq<nat>): seq<seq<bool>> { seq(|occ|, i requires 0 <= i < |occ| => FixedWord(occ[i], 8)) }

  lemma OctetsPrefixFree(f: seq<nat>)
    requires |f| == 512
    ensures PrefixFree(Octets(Occurring(f, 256)))
  {
    var occ := Occurring(f, 256);
    var ws := Octets(occ);
    OccurringOnce(f, 256);
    assert Pow2(8) == 256;
    forall i, j | 0 <= i < |ws| && 0 <= j < |ws| && i != j ensures !(ws[i] <= ws[j]) {
      if ws[i] <= ws[j] {
        assert ws[i] == ws[j];
        FixedWordValue(occ[i], 8);
        FixedWordValue(occ[j], 8);
        TwiceCounts(occ, i, j);
      }
    }
  }

  lemma {:induction false} OctetsCost(ws: seq<nat>, occ: seq<nat>)
    requires |ws| == |occ|
    ensures Cost(ws, Lengths(Octets(occ))) == 8 * Sum(ws)
  {
    if ws != [] {
      OctetsCost(ws[1..], occ[1..]);
      var p := Products(ws, Lengths(Octets(occ)));
      assert p[1..] == Products(ws[1..], Lengths(Octets(occ[1..])));
    }
  }

  /** The code bits of the table are the bits of the encoded buffer. */
  lemma EncodedCost(t: HTree, f: seq<nat>, link: seq<int>, data: seq<byte>)
    requires |f| == 512 && Trie(t, f, link, Occurring(f, 256)) && f[..256] == Counts(data)
    requires forall d :: d in data ==> d in Ids(t)
    requires forall s :: s in Occurring(f, 256) ==> s in Ids(t)
    ensures |Encoded(t, data)| == Cost(Pick(f, Occurring(f, 256)), Lengths(Words(t, Occurring(f, 256))))
  {
    hide Trie, Occurring, Encoded, Cost, Words, Pick;
    var occ := Occurring(f, 256);
    var g := BitsTable(f, t);
    TrieSizes(t, f, link, occ);
    OccurringAll(f, 256);
    EncodedLength(t, data);
    CodeBitsIsCost(f, t, occ);
    CodeBitsIsPick(f, t, g, occ);
    NoCountNoBits(t, f, data);
    PickOccurring(f, g, 256);
  }

  lemma NoCountNoBits(t: HTree, f: seq<nat>, data: seq<byte>)
    requires |f| == 512 && f[..256] == Counts(data)
    ensures BitsTable(f, t)[..256] == SpentOn(t, data)
    ensures forall c :: 0 <= c < 256 && f[c] == 0 ==> BitsTable(f, t)[c] == 0
  {
    forall c | 0 <= c < 256 ensures f[c] == Count(data, c) { assert f[c] == f[..256][c]; }
  }

  /** No prefix code over the same byte values encodes the buffer in fewer bits. */
  lemma EncodedIsShortest(t: HTree, f: seq<nat>, link: seq<int>, data: seq<byte>, alt: seq<seq<bool>>)
    requires |f| == 512 && Trie(t, f, link, Occurring(f, 256)) && f[..256] == Counts(data)
    requires |alt| == |Occurring(f, 256)| && PrefixFree(alt)
    ensures forall d :: d in data ==> d in Ids(t)
    ensures |Encoded(t, data)| <= Cost(Pick(f, Occurring(f, 256)), Lengths(alt))
  {
    hide Trie, Occurring, Encoded, Cost, Words;
    DataOccurs(f, data);
    TrieSizes(t, f, link, Occurring(f, 256));
    EncodedCost(t, f, link, data);
    CodesAreOptimal(t, f, link, alt);
  }

  /** Huffman coding never needs more than eight bits a byte: the compressor's check for an output
      longer than its input never fires. */
  lemma EncodedFits(t: HTree, f: seq<nat>, link: seq<int>, data: seq<byte>)
    requires |f| == 512 && Trie(t, f, link, Occurring(f, 256)) && f[..256] == Counts(data)
    ensures (forall d :: d in data ==> d in Ids(t)) && |Encoded(t, data)| <= 8 * |data|
  {
    hide Trie, Occurring, Encoded, Cost, Words, Octets;
    var occ := Occurring(f, 256);
    OctetsPrefixFree(f);
    OctetsLength(occ);
    EncodedIsShortest(t, f, link, data, Octets(occ));
    OctetsCost(Pick(f, occ), occ);
    PickOccurring(f, f, 256);
    CountsSum(data);
  }

  lemma OctetsLength(occ: seq<nat>)
    ensures |Octets(occ)| == |occ|
  {
  }

  lemma DataOccurs(f: seq<nat>, data: seq<byte>)
    requires |f| == 512 && f[..256] == Counts(data)
    ensures forall d :: d in data ==> d in Occurring(f, 256)
    ensures forall c :: c in Occurring(f, 256) ==> c in data
  {
    OccurringAll(f, 256);
    forall c: byte ensures f[c] > 0 <==> c in data {
      assert f[c] == f[..256][c];
      CountPositive(data, c);
    }
  }

  // ---- from the generated codes to the coder and the decode table ----

  lemma ShortValue(bits: seq<bool>)
    requires |bits| <= 32
    ensures Value(bits) < WORD
  {
    hide Value, Pow2;
    ValueBound(bits);
    Pow2Grows(|bits|, 32);
    Pow2At32();
  }

  lemma {:induction false} LeafOrFork(t: HTree, m: nat)
    requires WellNumbered(t) && t.Fork? && m in Ids(t) && m < 256
    ensures 1 <= |PathTo(t, m)| <= Depth(t)
  {
    PathsWithinDepth(t, m);
  }

  /** With codes of at most 32 bits nothing is cut off: the tables hold the paths themselves. */
  lemma CodedTables(t: HTree, f: seq<nat>, link: seq<int>, data: seq<byte>, code: seq<nat>, clen: seq<nat>, maxx: nat,
                    maxi: nat)
    requires |f| == 512 && Trie(t, f, link, Occurring(f, 256)) && f[..256] == Counts(data)
    requires Coded(t, Occurring(f, 256), code, clen, 256, maxx, maxi) && maxi == Depth(t) <= 32
    ensures Tables(t, code, clen) && Spelled(t, data)
    ensures t.Fork? ==> Coder(t, code, clen, data)
    ensures t.Fork? ==> Coding(t)
    ensures forall m :: m in Symbols(t) && m < 256 ==> m in data
  {
    hide Occurring, Value, PathTo, Depth, Counts, WellNumbered, Linked, Graded;
    SymbolsAreIds(t);
    DataOccurs(f, data);
    SymbolsInData(t, f, link, data);
    TablesOfCoded(t, Occurring(f, 256), code, clen, maxx, maxi);
    if t.Fork? {
      TablesCode(t, code, clen, data);
    }
  }

  lemma SymbolsInData(t: HTree, f: seq<nat>, link: seq<int>, data: seq<byte>)
    requires |f| == 512 && Trie(t, f, link, Occurring(f, 256)) && f[..256] == Counts(data)
    ensures forall m :: m in Symbols(t) && m < 256 ==> m in data
  {
    hide Occurring;
    DataOccurs(f, data);
  }

  lemma TablesOfCoded(t: HTree, occ: seq<nat>, code: seq<nat>, clen: seq<nat>, maxx: nat, maxi: nat)
    requires WellNumbered(t) && (forall s :: s in Symbols(t) <==> s in occ) && Depth(t) <= 32
    requires forall s :: s < 256 ==> (s in Symbols(t) <==> s in Ids(t))
    requires Coded(t, occ, code, clen, 256, maxx, maxi)
    ensures Tables(t, code, clen)
  {
    hide Value, PathTo, Depth, WellNumbered;
    forall m | m in Ids(t) && 0 <= m < 256
      ensures code[m] == Value(PathTo(t, m)) && clen[m] == |PathTo(t, m)|
    {
      PathsWithinDepth(t, m);
      ShortValue(PathTo(t, m));
    }
  }

  lemma TablesCode(t: HTree, code: seq<nat>, clen: seq<nat>, data: seq<byte>)
    requires WellNumbered(t) && t.Fork? && Tables(t, code, clen) && Spelled(t, data) && Depth(t) <= 32
    ensures Coder(t, code, clen, data)
  {
    hide Value, PathTo, Depth, WellNumbered;
    SymbolsAreIds(t);
    forall m | m in Ids(t) && 0 <= m < 256
      ensures 1 <= |PathTo(t, m)| <= Depth(t)
    {
      LeafOrFork(t, m);
    }
  }

  /** Some symbol of a fork has a code word other than zero. */
  lemma OneBranch(t: HTree) returns (m: nat)
    requires WellNumbered(t) && t.Fork?
    ensures m in Symbols(t) && m in Ids(t) && m < 256 && Value(PathTo(t, m)) > 0
  {
    hide Value;
    m := DepthReached(t.one);
    SymbolsAreIds(t.one);
    ValueCons(true, PathTo(t.one, m));
  }

  lemma ForkCodes(t: HTree, occ: seq<nat>, code: seq<nat>, clen: seq<nat>, maxx: nat, maxi: nat)
    requires WellNumbered(t) && (forall s :: s in Symbols(t) <==> s in occ) && t.Fork?
    requires Coded(t, occ, code, clen, 256, maxx, maxi) && Depth(t) <= 32
    ensures maxx > 0
  {
    hide Value, Depth, Symbols;
    var m := OneBranch(t);
    LeafOrFork(t, m);
    ShortValue(PathTo(t, m));
    assert CodeOf(t, m, code[m], clen[m]);
  }

  lemma LeafCodes(t: HTree, occ: seq<nat>, code: seq<nat>, clen: seq<nat>, maxx: nat, maxi: nat)
    requires WellNumbered(t) && (forall s :: s in Symbols(t) <==> s in occ) && t.Leaf?
    requires Coded(t, occ, code, clen, 256, maxx, maxi)
    ensures maxx == 0
  {
    hide Value;
    ValueBound([]);
    assert forall s :: s in Symbols(t) ==> s == t.sym;
    assert t.sym in occ ==> CodeOf(t, t.sym, code[t.sym], clen[t.sym]);
  }

  /** The largest code is zero exactly when at most one byte value occurs. */
  lemma OneValueOnly(t: HTree, f: seq<nat>, link: seq<int>, code: seq<nat>, clen: seq<nat>, maxx: nat, maxi: nat)
    requires |f| == 512 && Trie(t, f, link, Occurring(f, 256))
    requires Coded(t, Occurring(f, 256), code, clen, 256, maxx, maxi) && maxi == Depth(t) <= 32
    ensures maxx == 0 <==> t.Leaf?
  {
    hide Coded, Occurring, Symbols, Depth;
    if t.Fork? {
      ForkCodes(t, Occurring(f, 256), code, clen, maxx, maxi);
    } else {
      LeafCodes(t, Occurring(f, 256), code, clen, maxx, maxi);
    }
  }

  ghost predicate AllEqual(data: seq<byte>) { forall i, j :: 0 <= i < |data| && 0 <= j < |data| ==> data[i] == data[j] }

  lemma LeafAllEqual(t: HTree, f: seq<nat>, link: seq<int>, data: seq<byte>)
    requires |f| == 512 && Trie(t, f, link, Occurring(f, 256)) && f[..256] == Counts(data)
    ensures t.Leaf? <==> AllEqual(data)
  {
    DataOccurs(f, data);
    SymbolsAreIds(t);
    if t.Fork? {
      var a := DepthReached(t.zero);
      var b := DepthReached(t.one);
      SymbolsAreIds(t.zero);
      SymbolsAreIds(t.one);
      assert a in data && b in data;
      var i, j :| 0 <= i < |data| && 0 <= j < |data| && data[i] == a && data[j] == b;
    } else {
      forall i, j | 0 <= i < |data| && 0 <= j < |data| ensures data[i] == data[j] {
        assert data[i] in data && data[j] in data;
        assert data[i] in Symbols(t) && data[j] in Symbols(t);
      }
    }
  }

  // ---- the benchmark routine ----

  /** How the routine ends: early in one of three ways, at its end, or by reading on outside the decode
      table or the compressed data. */
  datatype Outcome = OneValue | CodesTooLong | NotSmaller | Finished | RanOutside

  /** A trie the routine may build for the data. */
  ghost predicate TrieFor(t: HTree, data: seq<byte>) {
    if data == [] then t == Leaf(0)
    else exists f, link :: |f| == 512 && Trie(t, f, link, Occurring(f, 256)) && f[..256] == Counts(data)
  }

  /** What the compression half leaves to the decompression half. */
  ghost predicate Compressed(t: HTree, data: seq<byte>, code: seq<nat>, clen: seq<nat>, comp: seq<byte>) {
    && Coding(t) && Tables(t, code, clen) && Spelled(t, data)
    && (forall m :: m in Symbols(t) && m < 256 ==> m in data) && Carries(comp, Encoded(t, data))
  }

  /** The compression half. Unless it ends early, it leaves code tables for a trie over the bytes
      of the data, and the encoded data in `comp`. */
  method Compress(data: array<byte>, code: array<nat>, clen: array<nat>, comp: array<byte>)
    returns (outcome: Outcome, ghost t: HTree)
    requires code.Length == 256 && clen.Length == 256 && comp.Length == data.Length + 1
    requires code != clen && comp != data
    modifies code, clen, comp
    ensures TrieFor(t, data[..])
    ensures outcome == OneValue <==> AllEqual(data[..])
    ensures outcome == CodesTooLong <==> Depth(t) > 32
    ensures outcome == OneValue ==> Depth(t) == 0
    ensures outcome != NotSmaller && outcome != RanOutside
    ensures outcome == Finished ==> Compressed(t, data[..], code[..], clen[..], comp[..])
  {
    hide Trie, Coded, Tables, Coder, Coding, Spelled, Carries, Encoded, Occurring, Counts, Depth, HeapFrom,
         AllEqual, WellNumbered, Symbols, Ids, PathTo, Count, InTable, TrieFor;
    ghost var d: seq<byte> := data[..];
    t := Leaf(0);
    ghost var f: seq<nat>;
    var freq, link, n;
    freq, link, n, t, f := BuildCoder(data);
    LeafDepth(t);
    if n == 0 {
      // no byte occurs, so no code is generated and the largest code is 0
      return OneValue, t;
    }
    var maxx, maxi := GenerateCodes(freq, link, code, clen, t, f);
    LeafAllEqual(t, f, link[..], d);
    if maxi > 32 {
      return CodesTooLong, t;
    }
    OneValueOnly(t, f, link[..], code[..], clen[..], maxx, maxi);
    if maxx == 0 {
      return OneValue, t;
    }
    CodedTables(t, f, link[..], d, code[..], clen[..], maxx, maxi);
    EncodedFits(t, f, link[..], d);
    SomeData(d);
    var ok := Encode(data, code, clen, comp, t);
    if !ok {
      return NotSmaller, t;
    }
    outcome := Finished;
  }

  /** Counting, heap and trie; `n` is 0 when there is no data and 1 otherwise. */
  method BuildCoder(data: array<byte>)
    returns (freq: array<nat>, link: array<int>, n: nat, ghost t: HTree, ghost f: seq<nat>)
    ensures fresh(freq) && fresh(link) && freq.Length == 512 && |f| == 512
      && freq[..256] == f[..256] == Counts(data[..])
    ensures n == 0 ==> AllEqual(data[..]) && t == Leaf(0)
    ensures TrieFor(t, data[..])
    ensures n != 0 ==> Trie(t, f, link[..], Occurring(f, 256))
  {
    hide Trie, Occurring, Counts, HeapFrom, AllEqual, Count;
    t := Leaf(0);
    var heap := new nat[256](_ => 0);
    link := new int[512](_ => 0);
    freq := CountFrequencies(data);
    n := CollectSymbols(freq, heap);
    f := freq[..];
    FrequenciesAreCounts(f, data[..]);
    Heapify(freq, heap, n);
    NoData(f, data[..]);
    if n == 0 {
      link[256 + n] := 0;
    } else {
      n, t := BuildTrie(freq, heap, link, n);
    }
  }

  /** The decompression half, into a buffer of the right size and any contents. It restores the data
      exactly when no code has 32 bits. */
  method Decompress(data: array<byte>, code: array<nat>, clen: array<nat>, comp: array<byte>, ghost t: HTree,
                    ghost d: seq<byte>)
    returns (ok: bool)
    requires code.Length == 256 && clen.Length == 256 && comp != data && data.Length == |d|
    requires Compressed(t, d, code[..], clen[..], comp[..])
    modifies data
    ensures ok && data[..] == d <==> Depth(t) != 32
  {
    hide Tables, Coding, Spelled, Carries, Encoded, Keyed, DecodeTable, AscendingTo, Symbols, Ids, Key, Depth,
         BitsFrom, Decoded;
    ghost var c: seq<byte> := comp[..];
    var heap2, outc := BuildTable(code, clen, t);
    TableKeyed(t, heap2[..], outc[..]);
    SortTable(heap2, outc, t);
    var j := FindFirst(heap2, outc, t);
    DecodeResult(t, heap2[..], outc[..], j, d, c);
    ok := Decode(data, comp, heap2, outc, j);
  }

  lemma DecodeResult(t: HTree, h: seq<nat>, o: seq<byte>, j: nat, data: seq<byte>, comp: seq<byte>)
    requires DecodeTable(t, h, o, j) && Spelled(t, data) && Carries(comp, Encoded(t, data))
    requires forall m :: m in Symbols(t) && m < 256 ==> m in data
    ensures |h| == |o| == 256 && j < 256
    ensures Decoded(h, o, j, BitsFrom(comp, 0), 0, j, |data|) == Read(data) <==> Depth(t) != 32
  {
    hide DecodeTable, Encoded, Symbols, Depth, Decoded, StreamBit;
    TableSize(t, h, o, j);
    TableCoding(t, h, o, j);
    var e, bits := Encoded(t, data), BitsFrom(comp, 0);
    assert e <= bits by { CarriesPrefix(comp, e); }
    if Depth(t) == 32 {
      NeverRestores(t, h, o, j, data, bits);
    } else {
      Restores(t, h, o, j, data, bits);
    }
  }

  lemma CarriesPrefix(comp: seq<byte>, e: seq<bool>)
    requires Carries(comp, e)
    ensures e <= BitsFrom(comp, 0)
  {
    hide StreamBit;
    if e != [] { assert (|e| - 1) / 8 < |comp|; }
    forall p | 0 <= p < |e| ensures BitsFrom(comp, 0)[p] == e[p] {
      assert BitsFrom(comp, 0)[p] == StreamBit(comp, 0 + p);
    }
  }

  /** Compresses the buffer and decompresses it over itself. The routine comes to its end with the data
      unchanged exactly when the longest code does not have 32 bits. */
  method CompDecomp(data: array<byte>) returns (outcome: Outcome, ghost t: HTree)
    modifies data
    ensures TrieFor(t, old(data[..]))
    ensures outcome != RanOutside && data[..] == old(data[..]) <==> Depth(t) != 32
    ensures outcome == OneValue <==> AllEqual(old(data[..]))
    ensures outcome == CodesTooLong <==> Depth(t) > 32
    ensures outcome != NotSmaller
    ensures data.Length < 5702887 ==> outcome != RanOutside && data[..] == old(data[..])
  {
    hide Tables, Coding, Spelled, Carries, Encoded, AllEqual, Depth, TrieFor, Compressed;
    ghost var d: seq<byte> := data[..];
    var comp := new byte[data.Length + 1](_ => 0);
    var code := new nat[256](_ => 0);
    var clen := new nat[256](_ => 0);
    outcome, t := Compress(data, code, clen, comp);
    DeepTrie(t, d);
    if outcome == Finished {
      var ok := Decompress(data, code, clen, comp, t, d);
      if !ok {
        outcome := RanOutside;
      }
    }
  }

  lemma FrequenciesAreCounts(f: seq<nat>, data: seq<byte>)
    requires |f| == 512 && forall c :: 0 <= c < 256 ==> f[c] == Count(data, c)
    ensures f[..256] == Counts(data)
  {
  }

  lemma NoData(f: seq<nat>, data: seq<byte>)
    requires |f| == 512 && f[..256] == Counts(data)
    ensures Occurring(f, 256) == [] <==> data == []
    ensures data == [] ==> AllEqual(data)
  {
    DataOccurs(f, data);
    var occ := Occurring(f, 256);
    if data != [] { assert data[0] in occ; }
    if occ != [] { assert occ[0] in occ; }
  }

  lemma SomeData(data: seq<byte>)
    requires !AllEqual(data)
    ensures |data| >= 1
  {
  }

  lemma LeafDepth(t: HTree)
    ensures t.Leaf? <==> Depth(t) == 0
  {
  }

  lemma DeepTrie(t: HTree, data: seq<byte>)
    requires TrieFor(t, data)
    ensures Depth(t) >= 32 ==> |data| >= 5702887
  {
    hide Occurring, Counts, Trie;
    if data != [] && |data| < 5702887 {
      var f, link :| |f| == 512 && Trie(t, f, link, Occurring(f, 256)) && f[..256] == Counts(data);
      ShortDataShortCodes(t, f, link, data);
    }
  }

  lemma TableKeyed(t: HTree, h: seq<nat>, o: seq<byte>)
    requires |h| == |o| == 256 && forall i :: 0 <= i < 256 ==> o[i] == i && h[i] == Key(t, i)
    ensures Keyed(t, h, o)
  {
    forall m | 0 <= m < 256 ensures Has(o, m) { assert o[m] == m; }
  }
}
