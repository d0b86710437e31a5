/** With a code of exactly 32 bits the decoder never restores the data. */
module HuffLoss {
  import opened Bits
  import opened HuffTree
  import opened HuffForest
  import opened HuffCodes
  import opened HuffNodes
  import opened HuffNumber
  import opened HuffEncode
  import opened HuffDecode
  import opened HuffRestore
  import opened HuffWrap
  import opened HuffPeriod

  // ---- the table and the trie ----

  lemma ListedHasEntry(t: HTree, h: seq<nat>, o: seq<byte>, j: nat, v: nat) returns (x: nat)
    requires DecodeTable(t, h, o, j) && Listed(t, v)
    ensures x < |h| == 256 && h[x] == v
  {
    hide Number, AscendingTo, Key;
    var p :| LeafPath(t, p) && Number(p) == v;
    var m := LeafHasSymbol(t, p);
    x := EntryOf(t, h, o, m);
    KeyIs(t, m);
  }

  lemma EntryOf(t: HTree, h: seq<nat>, o: seq<byte>, m: nat) returns (x: nat)
    requires Keyed(t, h, o) && m < 256
    ensures x < |h| == |o| == 256 && o[x] == m && h[x] == Key(t, m)
  {
    hide Key;
    assert Has(o, m);
    x :| 0 <= x < 256 && o[x] == m;
  }

  lemma KeyIs(t: HTree, m: nat)
    requires m in Ids(t) && m < 256
    ensures Key(t, m) == Number(PathTo(t, m))
  {
  }

  /** From the first nonzero entry on, all entries belong to code words. */
  lemma EntryIsListed(t: HTree, h: seq<nat>, o: seq<byte>, j: nat, x: nat)
    requires DecodeTable(t, h, o, j) && j <= x < 256
    ensures |h| == |o| == 256 && h[x] > 0 && o[x] in Ids(t) && LeafPath(t, PathTo(t, o[x]))
    ensures h[x] == Number(PathTo(t, o[x])) && Listed(t, h[x])
  {
    hide Number;
    assert h[j] <= h[x];
    assert h[x] == Key(t, o[x]);
    SymbolsAreIds(t);
    PathIsLeaf(t, o[x]);
    LeafListed(t, PathTo(t, o[x]));
  }

  // ---- what the scan does ----

  /** Some number met while u was read is larger. */
  ghost predicate Exceeded(u: seq<bool>, v: nat) { exists l :: 1 <= l <= |u| && v < At(u, l) }

  /** The decoder has read u since the last symbol: the scan stands at the first entry that is at
      least every number met, and none of them is a table number it could have stopped at. */
  ghost predicate Quiet(t: HTree, h: seq<nat>, j: nat, u: seq<bool>, k: nat, i: nat) {
    && k == Number(u) && Silent(t, u) && j <= i < |h|
    && (forall l :: 1 <= l <= |u| ==> At(u, l) < h[i])
    && (forall x :: j <= x < i ==> Exceeded(u, h[x]))
  }

  lemma QuietStart(t: HTree, h: seq<nat>, j: nat)
    requires j < |h|
    ensures Quiet(t, h, j, [], 0, j)
  {
    NumberStart();
  }

  /** One bit more. */
  lemma BitRead(t: HTree, h: seq<nat>, o: seq<byte>, j: nat, u: seq<bool>, k: nat, i: nat, b: bool)
    requires DecodeTable(t, h, o, j) && Quiet(t, h, j, u, k, i)
    ensures
      var k' := Next(k, b);
      var i' := First(h, k', i);
      i' < |h| ==> if h[i'] == k' then Matched(t, h, j, u + [b], i') else Quiet(t, h, j, u + [b], k', i')
  {
    hide Next, First, Number, HeapNumber, Listed, DecodeTable, Silent, Matched;
    TableSize(t, h, o, j);
    var u', k' := u + [b], Next(k, b);
    var i' := First(h, k', i);
    NumberStep(u, b);
    assert u'[..|u'|] == u' && u'[..|u'| - 1] == u;
    if i' < |h| {
      Ascends(t, h, o, j, i, i');
      MetBefore(h, u, b, i, i');
      ScannedBefore(h, j, u, b, i, i');
      if h[i'] == k' {
        EntryIsListed(t, h, o, j, i');
        MatchFound(t, h, j, u', i');
      } else if Listed(t, k') {
        var l := PassedOver(t, h, o, j, u', i');
        SilentStep(t, u', l);
      } else {
        SilentStep(t, u', 0);
      }
    }
  }

  lemma MetBefore(h: seq<nat>, u: seq<bool>, b: bool, i: nat, i': nat)
    requires i <= i' < |h| && h[i] <= h[i'] && forall l :: 1 <= l <= |u| ==> At(u, l) < h[i]
    ensures forall l :: 1 <= l <= |u| ==> At(u + [b], l) < h[i']
  {
    hide Number;
    forall l | 1 <= l <= |u| ensures At(u + [b], l) < h[i'] {
      assert (u + [b])[..l] == u[..l];
      assert At(u, l) < h[i];
    }
  }

  lemma ScannedBefore(h: seq<nat>, j: nat, u: seq<bool>, b: bool, i: nat, i': nat)
    requires i <= i' < |h| && (forall x :: i <= x < i' ==> h[x] < Number(u + [b]))
    requires forall x :: j <= x < i ==> Exceeded(u, h[x])
    ensures forall x :: j <= x < i' ==> Exceeded(u + [b], h[x])
  {
    hide Number;
    var v := u + [b];
    forall x | j <= x < i' ensures Exceeded(v, h[x]) {
      if x < i {
        var l :| 1 <= l <= |u| && h[x] < At(u, l);
        assert v[..l] == u[..l];
        assert h[x] < At(v, l);
      } else {
        assert v[..|v|] == v;
        assert h[x] < At(v, |v|);
      }
    }
  }

  /** The scan stands on the number of u: it is found, at its first entry. */
  ghost predicate Matched(t: HTree, h: seq<nat>, j: nat, u: seq<bool>, x: nat) {
    j <= x < |h| && Emits(t, u) && h[x] == Number(u) && forall y :: j <= y < x ==> h[y] < h[x]
  }

  lemma MatchFound(t: HTree, h: seq<nat>, j: nat, u: seq<bool>, x: nat)
    requires u != [] && j <= x < |h| && Silent(t, u[..|u| - 1]) && Listed(t, Number(u)) && h[x] == Number(u)
    requires forall l :: 1 <= l < |u| ==> At(u, l) < h[x]
    requires forall y :: j <= y < x ==> Exceeded(u, h[y])
    ensures Matched(t, h, j, u, x)
  {
    hide Number, Silent, Listed;
    assert u[..|u|] == u;
    forall y | j <= y < x ensures h[y] < h[x] {
      var l :| 1 <= l <= |u| && h[y] < At(u, l);
    }
  }

  /** A listed number that the scan does not stop at is below one met before. */
  lemma PassedOver(t: HTree, h: seq<nat>, o: seq<byte>, j: nat, u: seq<bool>, i: nat) returns (l: nat)
    requires DecodeTable(t, h, o, j) && u != [] && j <= i < |h| && Number(u) < h[i] && Listed(t, Number(u))
    requires forall x :: j <= x < i ==> Exceeded(u, h[x])
    ensures 1 <= l < |u| && At(u, l) > Number(u)
  {
    hide Number, HeapNumber, Listed, Keyed, Coding;
    assert u[..|u|] == u;
    var x := ListedHasEntry(t, h, o, j, Number(u));
    l := 1;
    if x < j {
      ShortNumber(u[..1]);
      HeapNumberGrows([], u[..1]);
    } else if x < i {
      l :| 1 <= l <= |u| && h[x] < At(u, l);
    } else {
      Ascends(t, h, o, j, i, x);
    }
  }

  lemma SilentStep(t: HTree, u: seq<bool>, l: nat)
    requires u != [] && Silent(t, u[..|u| - 1])
    requires Listed(t, Number(u)) ==> 1 <= l < |u| && At(u, l) > Number(u)
    ensures Silent(t, u)
  {
    hide Number, Listed;
    var p := u[..|u| - 1];
    forall k | 1 <= k <= |u| && Listed(t, At(u, k)) ensures exists i :: 1 <= i < k && At(u, i) > At(u, k) {
      if k == |u| {
        assert u[..k] == u;
      } else {
        assert p[..k] == u[..k];
        assert At(p, k) == At(u, k);
        var i :| 1 <= i < k && At(p, i) > At(p, k);
        assert p[..i] == u[..i];
        assert At(u, i) == At(p, i);
      }
    }
  }

  /** A run that reads `data` begins with a word whose number is matched, and goes on with the rest. */
  lemma {:induction false} FirstWord(t: HTree, h: seq<nat>, o: seq<byte>, j: nat, u0: seq<bool>, k: nat, i: nat,
                                     bits: seq<bool>, n: nat, data: seq<byte>)
    returns (u: seq<bool>, x: nat)
    requires DecodeTable(t, h, o, j) && Quiet(t, h, j, u0, k, i) && n > 0 && |h| == |o|
    requires Decoded(h, o, j, bits, k, i, n) == Read(data)
    ensures |h| == |o| == 256 && u0 < u && u[|u0|..] <= bits && Matched(t, h, j, u, x)
    ensures data != [] && o[x] == data[0]
    ensures Decoded(h, o, j, bits[|u| - |u0|..], 0, j, n - 1) == Read(data[1..])
    decreases |bits|
  {
    hide Next, First, Number, DecodeTable, Matched, Quiet, Decoded, Then;
    TableSize(t, h, o, j);
    QuietInside(t, h, j, u0, k, i);
    DecodedSome(h, o, j, bits, k, i, n);
    DecodedStep(h, o, j, bits, k, i, n);
    var b := bits[0];
    BitRead(t, h, o, j, u0, k, i, b);
    var k' := Next(k, b);
    var i' := First(h, k', i);
    if h[i'] == k' {
      u, x := u0 + [b], i';
      assert u[|u0|..] == [b] == bits[..1];
      ReadCons(o[i'], Decoded(h, o, j, bits[1..], 0, j, n - 1), data);
    } else {
      u, x := FirstWord(t, h, o, j, u0 + [b], k', i', bits[1..], n, data);
      assert u[|u0|..] == [b] + u[|u0| + 1..];
      assert bits[1..][|u| - |u0| - 1..] == bits[|u| - |u0|..];
    }
  }

  lemma QuietInside(t: HTree, h: seq<nat>, j: nat, u: seq<bool>, k: nat, i: nat)
    requires Quiet(t, h, j, u, k, i)
    ensures j <= i < |h|
  {
  }

  lemma DecodedSome(h: seq<nat>, o: seq<byte>, j: nat, bits: seq<bool>, k: nat, i: nat, n: nat)
    requires |o| == |h| && i <= |h| && j <= |h| && n > 0
    ensures Decoded(h, o, j, bits, k, i, n).Read? ==> bits != []
  {
  }

  lemma ReadCons(c: byte, r: Reading, data: seq<byte>)
    requires Then([c], r) == Read(data)
    ensures data != [] && data[0] == c && r == Read(data[1..])
  {
    assert data[1..] == r.data;
  }

  // ---- a run that restores the data finds every number ----

  ghost predicate Hit(t: HTree, h: seq<nat>, o: seq<byte>, j: nat, m: byte)
    requires |h| == |o|
  {
    exists u: seq<bool>, x: nat :: Matched(t, h, j, u, x) && o[x] == m
  }

  lemma {:induction false} EveryHit(t: HTree, h: seq<nat>, o: seq<byte>, j: nat, bits: seq<bool>, data: seq<byte>,
                                    m: byte)
    requires DecodeTable(t, h, o, j) && |h| == |o| && Decoded(h, o, j, bits, 0, j, |data|) == Read(data) && m in data
    ensures Hit(t, h, o, j, m)
    decreases |data|
  {
    hide DecodeTable, Quiet, Matched, Decoded;
    TableSize(t, h, o, j);
    QuietStart(t, h, j);
    var u, x := FirstWord(t, h, o, j, [], 0, j, bits, |data|, data);
    assert Matched(t, h, j, u, x);
    if data[0] != m { EveryHit(t, h, o, j, bits[|u|..], data[1..], m); }
  }

  lemma AllAreFound(t: HTree, h: seq<nat>, o: seq<byte>, j: nat)
    requires DecodeTable(t, h, o, j) && Depth(t) == 32 && |h| == |o|
    requires forall m :: m in Symbols(t) && m < 256 ==> Hit(t, h, o, j, m)
    ensures AllFound(t)
  {
    hide DecodeTable, Matched, Number, Emits, Hit;
    forall p | LeafPath(t, p) ensures 0 < Number(p) && Found(t, Number(p)) {
      var m, u, x := Finding(t, h, o, j, p);
    }
    forall p, q | LeafPath(t, p) && LeafPath(t, q) && Number(p) == Number(q) ensures p == q {
      var m, u, x := Finding(t, h, o, j, p);
      var m', u', x' := Finding(t, h, o, j, q);
    }
    assert Coding(t) by { TableCoding(t, h, o, j); }
  }

  /** How the code word p is found. */
  lemma Finding(t: HTree, h: seq<nat>, o: seq<byte>, j: nat, p: seq<bool>) returns (m: nat, u: seq<bool>, x: nat)
    requires DecodeTable(t, h, o, j) && |h| == |o| && LeafPath(t, p)
    requires forall m :: m in Symbols(t) && m < 256 ==> Hit(t, h, o, j, m)
    ensures j <= x < |h| && o[x] == m && m in Ids(t) && PathTo(t, m) == p && Emits(t, u)
    ensures h[x] == Number(u) == Number(p) > 0 && forall y :: j <= y < x ==> h[y] < h[x]
  {
    hide Number, Emits, DecodeTable;
    TableSize(t, h, o, j);
    TableCoding(t, h, o, j);
    m := LeafHasSymbol(t, p);
    u, x :| Matched(t, h, j, u, x) && o[x] == m;
    EntryIsListed(t, h, o, j, x);
  }

  // ---- the first code word of 32 bits is lost ----

  /** Reading up to 31 bits of a code word is aligned with it; a code word of 32 bits is never found. */
  lemma Aligned(t: HTree, u: seq<bool>, v: seq<bool>, bits: seq<bool>)
    requires AllFound(t) && Emits(t, u) && LeafPath(t, v) && Number(u) == Number(v) && u <= bits && v <= bits
    ensures u == v && |v| <= 31
  {
    hide Number, HeapNumber, Silent, Listed, Depth, Inner, LeafPath;
    WithinDepth(t, v);
    LeafBelow(t, v);
    if |v| < |u| {
      assert u[..|v|] == v;
      NotMetBefore(t, u, |v|);
    } else if |v| == 32 {
      NoWordRepeats(t, v);
      LongLeaf(t, v);
      if |u| == 32 {
        EmitsRegular(t, u);
        TailShort(u[..31]);
        assert At(u, 31) < Number(u);
        StripIsNoRecord(u);
      } else {
        ShortNumber(u);
        HeapNumberInjective(u, Strip(v));
      }
    } else {
      ShortNumber(u);
      ShortNumber(v);
      HeapNumberInjective(u, v);
    }
  }

  lemma NotMetBefore(t: HTree, u: seq<bool>, l: nat)
    requires Emits(t, u) && 1 <= l < |u|
    ensures Number(u[..l]) != Number(u)
  {
    hide Number;
    assert At(u, l) == Number(u[..l]);
  }

  lemma LeafBelow(t: HTree, v: seq<bool>)
    requires t.Fork? && LeafPath(t, v)
    ensures v != []
  {
  }

  lemma {:induction false} Misread(t: HTree, h: seq<nat>, o: seq<byte>, j: nat, data: seq<byte>, bits: seq<bool>,
                                   m: byte)
    requires DecodeTable(t, h, o, j) && AllFound(t) && Spelled(t, data) && Encoded(t, data) <= bits && |h| == |o|
    requires m in data && m in Ids(t) && |PathTo(t, m)| == 32
    ensures Decoded(h, o, j, bits, 0, j, |data|) != Read(data)
    decreases |data|
  {
    hide DecodeTable, Quiet, Decoded, AllFound, Emits, Number, Encoded, LeafPath;
    TableSize(t, h, o, j);
    if Decoded(h, o, j, bits, 0, j, |data|) == Read(data) {
      QuietStart(t, h, j);
      var u, x := FirstWord(t, h, o, j, [], 0, j, bits, |data|, data);
      EntryIsListed(t, h, o, j, x);
      EncodedFront(t, data);
      var v := PathTo(t, data[0]);
      assert u[0..] == u;
      Aligned(t, u, v, bits);
      Misread(t, h, o, j, data[1..], bits[|u|..], m);
    }
  }

  /** The decoder does not restore data of which some byte has a code of 32 bits. */
  lemma NeverRestores(t: HTree, h: seq<nat>, o: seq<byte>, j: nat, data: seq<byte>, bits: seq<bool>)
    requires DecodeTable(t, h, o, j) && Depth(t) == 32 && Spelled(t, data) && Encoded(t, data) <= bits
    requires forall m :: m in Symbols(t) && m < 256 ==> m in data
    ensures |h| == |o| == 256 && Decoded(h, o, j, bits, 0, j, |data|) != Read(data)
  {
    hide DecodeTable, Decoded, AllFound, Depth, Encoded;
    TableSize(t, h, o, j);
    TableCoding(t, h, o, j);
    if Decoded(h, o, j, bits, 0, j, |data|) == Read(data) {
      forall m | m in Symbols(t) && m < 256 ensures Hit(t, h, o, j, m) {
        EveryHit(t, h, o, j, bits, data, m);
      }
      AllAreFound(t, h, o, j);
      var m := DepthReached(t);
      SymbolsAreIds(t);
      Misread(t, h, o, j, data, bits, m);
    }
  }
}
