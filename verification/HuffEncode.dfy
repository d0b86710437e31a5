/** The bit-packed output of the compressor. */
module HuffEncode {
  import opened Arith
  import opened Bits
  import opened HuffTree

  /** Each byte of the data has its path as code: `code` the number, `clen` the length. */
  ghost predicate Coder(t: HTree, code: seq<nat>, clen: seq<nat>, data: seq<byte>) {
    && |code| == |clen| == 256 && WellNumbered(t)
    && forall d :: d in data ==>
      && d in Symbols(t) && d in Ids(t) && |PathTo(t, d)| >= 1
      && code[d] == Value(PathTo(t, d)) && clen[d] == |PathTo(t, d)|
  }

  /** The code words of the data, one after the other. */
  ghost function Encoded(t: HTree, data: seq<byte>): seq<bool>
    requires forall d :: d in data ==> d in Ids(t)
  {
    if data == [] then [] else Encoded(t, data[..|data| - 1]) + PathTo(t, data[|data| - 1])
  }

  lemma {:induction false} EncodedPrefix(t: HTree, data: seq<byte>, n: nat)
    requires n <= |data| && forall d :: d in data ==> d in Ids(t)
    ensures Encoded(t, data[..n]) <= Encoded(t, data)
    decreases |data| - n
  {
    if n == |data| {
      assert data[..n] == data;
    } else {
      assert data[..n + 1][..n] == data[..n];
      EncodedPrefix(t, data, n + 1);
    }
  }

  /** Bit `p` of the packed output, most significant bit of each byte first. */
  ghost predicate StreamBit(comp: seq<byte>, p: nat)
    requires p / 8 < |comp|
  {
    And(comp[p / 8], Pow2(7 - p % 8)) != 0
  }

  /** The bits `e` written so far: full bytes in `comp`, the rest in the low bits of `bout`. */
  ghost predicate Packed(comp: seq<byte>, compLen: nat, bit: int, bout: nat, e: seq<bool>) {
    && -1 <= bit <= 7 && |e| == 8 * compLen + bit + 1 && compLen <= |comp| && (bit == -1 ==> compLen == 0)
    && (forall k :: 0 <= k < compLen ==> comp[k] == Value(e[8 * k..8 * k + 8]))
    && bout == Value(e[8 * compLen..])
  }

  lemma PackedByte(comp: seq<byte>, compLen: nat, bit: int, bout: nat, e: seq<bool>)
    requires Packed(comp, compLen, bit, bout, e)
    ensures bout < Pow2(bit + 1) <= 256
  {
    ValueBound(e[8 * compLen..]);
    assert Pow2(8) == 256;
    Pow2Grows(bit + 1, 8);
  }

  /** One more bit, when the output byte is full: it is stored and a new one begun. */
  lemma PackFull(comp: seq<byte>, compLen: nat, bout: nat, e: seq<bool>, b: bool)
    requires Packed(comp, compLen, 7, bout, e) && compLen < |comp|
    ensures bout < 256 && Packed(comp[compLen := bout], compLen + 1, 0, if b then 1 else 0, e + [b])
  {
    PackedByte(comp, compLen, 7, bout, e);
    var e' := e + [b];
    assert e'[8 * (compLen + 1)..] == [b];
    assert Value([b]) == if b then 1 else 0;
    assert e[8 * compLen..] == e'[8 * compLen..8 * compLen + 8];
    forall k | 0 <= k < compLen ensures e'[8 * k..8 * k + 8] == e[8 * k..8 * k + 8] { }
  }

  /** One more bit, when there is room in the output byte. */
  lemma PackMore(comp: seq<byte>, compLen: nat, bit: int, bout: nat, e: seq<bool>, b: bool)
    requires Packed(comp, compLen, bit, bout, e) && bit < 7
    ensures Packed(comp, compLen, bit + 1, 2 * bout + (if b then 1 else 0), e + [b])
    ensures 2 * bout < 256
  {
    PackedByte(comp, compLen, bit, bout, e);
    assert Pow2(7) == 128;
    Pow2Grows(bit + 1, 7);
    var e' := e + [b];
    var s := e'[8 * compLen..];
    assert s[..|s| - 1] == e[8 * compLen..] && s[|s| - 1] == b;
    forall k | 0 <= k < compLen ensures e'[8 * k..8 * k + 8] == e[8 * k..8 * k + 8] { }
  }

  /** The last byte is filled up with zeros and stored. */
  lemma PackLast(comp: seq<byte>, compLen: nat, bit: int, bout: nat, e: seq<bool>)
    requires Packed(comp, compLen, bit, bout, e) && compLen < |comp| && bit >= 0
    ensures bout * Pow2(7 - bit) < 256
    ensures forall p :: 0 <= p < |e| ==> p / 8 < |comp| && StreamBit(comp[compLen := bout * Pow2(7 - bit)], p) == e[p]
  {
    var last := e[8 * compLen..];
    var z := Zeros(7 - bit);
    ValuePad(last, 7 - bit);
    ValueBound(last + z);
    assert Pow2(8) == 256;
    var comp' := comp[compLen := bout * Pow2(7 - bit)];
    var e' := e + z;
    assert e'[8 * compLen..8 * compLen + 8] == last + z;
    forall p | 0 <= p < |e| ensures p / 8 < |comp| && StreamBit(comp', p) == e[p] {
      var k := p / 8;
      assert k < compLen ==> e'[8 * k..8 * k + 8] == e[8 * k..8 * k + 8];
      assert comp'[k] == Value(e'[8 * k..8 * k + 8]);
      StreamByte(comp', e', p);
    }
  }

  lemma StreamByte(comp: seq<byte>, e: seq<bool>, p: nat)
    requires p / 8 < |comp| && 8 * (p / 8) + 8 <= |e| && comp[p / 8] == Value(e[8 * (p / 8)..8 * (p / 8) + 8])
    ensures StreamBit(comp, p) == e[p]
  {
    var k := p / 8;
    assert e[8 * k..8 * k + 8][p % 8] == e[p];
    BitOfValue(e[8 * k..8 * k + 8], p % 8);
  }

  /** Appends the code word of one symbol; `full` reports that the output has grown as long as the input. */
  method EncodeSymbol(comp: array<byte>, compLen0: nat, bit0: int, bout0: byte, code: nat, len: nat, dataLen: nat,
                      ghost e0: seq<bool>, ghost path: seq<bool>)
    returns (compLen: nat, bit: int, bout: byte, full: bool)
    requires Packed(comp[..], compLen0, bit0, bout0, e0) && compLen0 < dataLen < comp.Length
    requires code == Value(path) && len == |path| && len >= 1
    modifies comp
    ensures !full ==> Packed(comp[..], compLen, bit, bout, e0 + path) && compLen < dataLen
    ensures full ==> |e0| + |path| > 8 * dataLen
  {
    hide Packed, And, Value;
    compLen, bit, bout, full := compLen0, bit0, bout0, false;
    var mask := Pow2(len - 1);
    var i := 0;
    assert e0 + path[..0] == e0;
    while i < len
      invariant 0 <= i <= len && (i < len ==> mask == Pow2(len - 1 - i))
      invariant Packed(comp[..], compLen, bit, bout, e0 + path[..i]) && compLen < dataLen
    {
      ghost var c: seq<byte>, e := comp[..], e0 + path[..i];
      ghost var b := path[i];
      assert e + [b] == e0 + path[..i + 1];
      BitOfValue(path, i);
      if bit == 7 {
        PackFull(c, compLen, bout, e, b);
        PackedSize(c, compLen, bit, bout, e);
        comp[compLen] := bout;
        assert comp[..] == c[compLen := bout];
        compLen := compLen + 1;
        if compLen == dataLen {
          full := true;
          return;
        }
        bit := 0;
        bout := 0;
      } else {
        PackedSize(c, compLen, bit, bout, e);
        PackMore(c, compLen, bit, bout, e, b);
        bit := bit + 1;
        bout := (bout * 2) % 256;
      }
      if And(code, mask) != 0 {
        OrLowBit(bout, 1);
        bout := Or(bout, 1);
      }
      mask := mask / 2;
      i := i + 1;
    }
    assert path[..len] == path;
  }

  lemma PackedSize(comp: seq<byte>, compLen: nat, bit: int, bout: nat, e: seq<bool>)
    requires Packed(comp, compLen, bit, bout, e)
    ensures -1 <= bit <= 7 && |e| == 8 * compLen + bit + 1
  {
  }

  /** The compressed stream carries the bits `e`. */
  ghost predicate Carries(comp: seq<byte>, e: seq<bool>) {
    forall p :: 0 <= p < |e| ==> p / 8 < |comp| && StreamBit(comp, p) == e[p]
  }

  /** Encodes the whole buffer, giving up once the output is as long as the input. */
  method Encode(data: array<byte>, code: array<nat>, clen: array<nat>, comp: array<byte>, ghost t: HTree)
    returns (ok: bool)
    requires code.Length == 256 && clen.Length == 256 && comp.Length == data.Length + 1 && comp != data
    requires data.Length >= 1 && Coder(t, code[..], clen[..], data[..])
    modifies comp
    ensures forall d :: d in data[..] ==> d in Ids(t)
    ensures ok <==> |Encoded(t, data[..])| <= 8 * data.Length
    ensures ok ==> Carries(comp[..], Encoded(t, data[..]))
  {
    hide Packed, Coder, Carries, PathTo;
    ghost var d0: seq<byte>, code0, clen0 := data[..], code[..], clen[..];
    CoderIds(t, code0, clen0, d0);
    var compLen: nat, bit: int, bout: byte := 0, -1, 0;
    PackNone(comp[..]);
    var j := 0;
    while j < data.Length
      invariant 0 <= j <= data.Length && data[..] == d0 && code[..] == code0 && clen[..] == clen0
      invariant Packed(comp[..], compLen, bit, bout, Encoded(t, d0[..j])) && compLen < data.Length
    {
      ghost var e := Encoded(t, d0[..j]);
      ghost var path := PathTo(t, d0[j]);
      CodesFor(t, code0, clen0, d0, j);
      assert data[j] == d0[j] && code[data[j]] == code0[d0[j]] && clen[data[j]] == clen0[d0[j]];
      var full;
      compLen, bit, bout, full := EncodeSymbol(comp, compLen, bit, bout, code[data[j]], clen[data[j]], data.Length, e,
                                               path);
      assert d0[..j + 1][..j] == d0[..j];
      if full {
        EncodedPrefix(t, d0, j + 1);
        return false;
      }
      j := j + 1;
    }
    assert d0[..j] == d0;
    EncodedNonempty(t, code0, clen0, d0);
    FlushByte(comp, compLen, bit, bout, Encoded(t, d0));
    ok := true;
  }

  /** Outputs the incomplete last byte. */
  method FlushByte(comp: array<byte>, compLen: nat, bit: int, bout: byte, ghost e: seq<bool>)
    requires Packed(comp[..], compLen, bit, bout, e) && compLen < comp.Length - 1 && |e| >= 1
    modifies comp
    ensures Carries(comp[..], e) && |e| <= 8 * (comp.Length - 1)
  {
    hide Packed, Carries;
    PackedSize(comp[..], compLen, bit, bout, e);
    FirstBitWritten(comp[..], compLen, bit, bout, e);
    PackLast(comp[..], compLen, bit, bout, e);
    ghost var c: seq<byte> := comp[..];
    comp[compLen] := (bout * Pow2(7 - bit)) % 256;
    assert comp[..] == c[compLen := bout * Pow2(7 - bit)];
    CarriesIntro(comp[..], e);
  }

  lemma CarriesIntro(comp: seq<byte>, e: seq<bool>)
    requires forall p :: 0 <= p < |e| ==> p / 8 < |comp| && StreamBit(comp, p) == e[p]
    ensures Carries(comp, e)
  {
  }

  lemma PackNone(comp: seq<byte>)
    ensures Packed(comp, 0, -1, 0, [])
  {
  }

  lemma CoderIds(t: HTree, code: seq<nat>, clen: seq<nat>, data: seq<byte>)
    requires Coder(t, code, clen, data)
    ensures forall d :: d in data ==> d in Ids(t)
  {
  }

  lemma CodesFor(t: HTree, code: seq<nat>, clen: seq<nat>, data: seq<byte>, j: nat)
    requires Coder(t, code, clen, data) && j < |data|
    ensures |code| == |clen| == 256 && data[j] in Ids(t)
    ensures
      var path := PathTo(t, data[j]);
      |path| >= 1 && code[data[j]] == Value(path) && clen[data[j]] == |path|
  {
    assert data[j] in data;
  }

  lemma EncodedNonempty(t: HTree, code: seq<nat>, clen: seq<nat>, data: seq<byte>)
    requires Coder(t, code, clen, data) && data != []
    ensures (forall d :: d in data ==> d in Ids(t)) && |Encoded(t, data)| >= 1
  {
    CodesFor(t, code, clen, data, |data| - 1);
  }

  lemma FirstBitWritten(comp: seq<byte>, compLen: nat, bit: int, bout: nat, e: seq<bool>)
    requires Packed(comp, compLen, bit, bout, e) && |e| >= 1
    ensures 0 <= bit <= 7
  {
  }
}
