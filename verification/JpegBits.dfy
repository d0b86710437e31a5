/** picojpeg's input: byte stuffing and the 16-bit look-ahead bit buffer. */
module JpegBits {
  import opened Arith
  import opened Bits

  // ---- the character and octet streams ----

  /** What the character reader will deliver: the bytes not yet read, then 0xFF and 0xD9 in turn. */
  datatype Chars = Chars(rest: seq<byte>, tem: byte)

  function NextChar(c: Chars): (byte, Chars) {
    if c.rest != [] then (c.rest[0], Chars(c.rest[1..], c.tem))
    else
      var tem := 0xFF - c.tem;
      (if tem != 0 then 0xFF else 0xD9, Chars([], tem))
  }

  /** The next octet. With the check, 0xFF 0x00 stands for 0xFF, and 0xFF before anything else is
      delivered without being taken away. */
  function NextOctet(c: Chars, ffCheck: bool): (byte, Chars) {
    var (b, c1) := NextChar(c);
    if ffCheck && b == 0xFF then
      var (n, c2) := NextChar(c1);
      if n != 0 then (b, Chars([0xFF, n] + c2.rest, c2.tem)) else (b, c2)
    else (b, c1)
  }

  lemma OctetCases(c: Chars, ffCheck: bool)
    ensures
      var (b, c1) := NextChar(c);
      var (n, c2) := NextChar(c1);
      NextOctet(c, ffCheck)
      == if !ffCheck || b != 0xFF then (b, c1) else if n != 0 then (b, Chars([0xFF, n] + c2.rest, c2.tem)) else (b, c2)
  {
  }

  /** The bits of the next k octets. */
  function OctetBits(c: Chars, ffCheck: bool, k: nat): (r: seq<bool>)
    ensures |r| == 8 * k
    decreases k
  {
    if k == 0 then []
    else
      var (o, c1) := NextOctet(c, ffCheck);
      FixedWord(o, 8) + OctetBits(c1, ffCheck, k - 1)
  }

  lemma {:induction false} OctetBitsPrefix(c: Chars, ffCheck: bool, j: nat, k: nat)
    requires j <= k
    ensures OctetBits(c, ffCheck, j) <= OctetBits(c, ffCheck, k)
    decreases k
  {
    if j > 0 {
      var (o, c1) := NextOctet(c, ffCheck);
      OctetBitsPrefix(c1, ffCheck, j - 1, k - 1);
    }
  }

  /** The next m bits: those held in the buffer, then those of the octets to come. */
  function Ahead(held: seq<bool>, c: Chars, ffCheck: bool, m: nat): (r: seq<bool>)
    ensures |r| == m
  {
    (held + OctetBits(c, ffCheck, m))[..m]
  }

  /** Bits taken out of the buffer are the next bits. */
  lemma AheadDrop(held: seq<bool>, c: Chars, ffCheck: bool, k: nat, m: nat)
    requires k <= |held|
    ensures Ahead(held[k..], c, ffCheck, m) == Ahead(held, c, ffCheck, k + m)[k..]
  {
    OctetBitsPrefix(c, ffCheck, m, k + m);
    var x, y := OctetBits(c, ffCheck, m), OctetBits(c, ffCheck, k + m);
    forall i | 0 <= i < m ensures (held[k..] + x)[i] == (held + y)[k + i] {
      if i >= |held| - k { assert x[i - (|held| - k)] == y[i - (|held| - k)]; }
    }
  }

  lemma AheadTake(held: seq<bool>, c: Chars, ffCheck: bool, k: nat)
    requires k <= |held|
    ensures Ahead(held, c, ffCheck, k) == held[..k]
  {
  }

  /** Putting the next octet into the buffer changes nothing ahead. */
  lemma AheadLoad(held: seq<bool>, c: Chars, ffCheck: bool, m: nat)
    ensures
      var (o, c1) := NextOctet(c, ffCheck);
      Ahead(held + FixedWord(o, 8), c1, ffCheck, m) == Ahead(held, c, ffCheck, m)
  {
    var (o, c1) := NextOctet(c, ffCheck);
    var w := FixedWord(o, 8);
    OctetBitsPrefix(c, ffCheck, m, m + 1);
    assert OctetBits(c, ffCheck, m + 1) == w + OctetBits(c1, ffCheck, m);
    var x, y := OctetBits(c, ffCheck, m), OctetBits(c1, ffCheck, m);
    assert (held + w) + y == held + (w + y);
    assert x <= w + y;
    forall i | 0 <= i < m ensures (held + x)[i] == (held + (w + y))[i] {
      if i >= |held| { assert x[i - |held|] == (w + y)[i - |held|]; }
    }
  }

  /** The stream has moved on by k bits. */
  ghost predicate Moved(h: seq<bool>, c: Chars, h': seq<bool>, c': Chars, ffCheck: bool, k: nat) {
    forall m: nat :: Ahead(h', c', ffCheck, m) == Ahead(h, c, ffCheck, k + m)[k..]
  }

  lemma MovedTwice(h: seq<bool>, c: Chars, h1: seq<bool>, c1: Chars, h2: seq<bool>, c2: Chars, ffCheck: bool, j: nat,
                   k: nat)
    requires Moved(h, c, h1, c1, ffCheck, j) && Moved(h1, c1, h2, c2, ffCheck, k)
    ensures Moved(h, c, h2, c2, ffCheck, j + k)
  {
    hide Ahead;
    forall m: nat ensures Ahead(h2, c2, ffCheck, m) == Ahead(h, c, ffCheck, j + k + m)[j + k..] {
      assert Ahead(h1, c1, ffCheck, k + m) == Ahead(h, c, ffCheck, j + (k + m))[j..];
      assert j + (k + m) == j + k + m;
    }
  }

  // ---- stuffed data ----

  /** What an encoder writes for the octets `s`: a zero after every 0xFF. */
  function Stuffed(s: seq<byte>): seq<byte> {
    if s == [] then [] else (if s[0] == 0xFF then [0xFF, 0] else [s[0]]) + Stuffed(s[1..])
  }

  /** The bits of octets, most significant first. */
  function OctetsAsBits(s: seq<byte>): (r: seq<bool>)
    ensures |r| == 8 * |s|
  {
    if s == [] then [] else FixedWord(s[0], 8) + OctetsAsBits(s[1..])
  }

  lemma OneOctet(b: byte, rest: seq<byte>, tem: byte)
    ensures b != 0xFF ==> NextOctet(Chars([b] + rest, tem), true) == (b, Chars(rest, tem))
    ensures NextOctet(Chars([0xFF, 0] + rest, tem), true) == (0xFF, Chars(rest, tem))
  {
    assert ([b] + rest)[1..] == rest;
    var x := [0xFF, 0] + rest;
    assert x[1..] == [0] + rest && x[1..][1..] == rest;
  }

  lemma StuffedOctet(s: seq<byte>)
    requires s != []
    ensures Stuffed(s) == (if s[0] == 0xFF then [0xFF, 0] else [s[0]]) + Stuffed(s[1..])
  {
  }

  /** Reading with the check undoes stuffing by one octet. */
  lemma OctetUnstuffed(s: seq<byte>, t: seq<byte>, tem: byte)
    requires s != []
    ensures NextOctet(Chars(Stuffed(s) + t, tem), true) == (s[0], Chars(Stuffed(s[1..]) + t, tem))
  {
    hide NextOctet, Stuffed;
    StuffedOctet(s);
    var w, rest := if s[0] == 0xFF then [0xFF, 0] else [s[0]], Stuffed(s[1..]);
    OneOctet(s[0], rest + t, tem);
    assert w + rest + t == w + (rest + t);
  }

  /** If the input is stuffed data, whatever follows it, `o` is the next octet before stuffing and the input
      moves on to the rest of the stuffed data. */
  ghost predicate Delivers(c: Chars, o: byte, c': Chars) {
    forall s, t :: s != [] && c.rest == Stuffed(s) + t ==> o == s[0] && c' == Chars(Stuffed(s[1..]) + t, c.tem)
  }

  lemma OctetDelivered(c: Chars)
    ensures Delivers(c, NextOctet(c, true).0, NextOctet(c, true).1)
  {
    hide NextOctet;
    var o, c' := NextOctet(c, true).0, NextOctet(c, true).1;
    forall s, t | s != [] && c.rest == Stuffed(s) + t
      ensures o == s[0] && c' == Chars(Stuffed(s[1..]) + t, c.tem)
    {
      assert c == Chars(Stuffed(s) + t, c.tem);
      OctetUnstuffed(s, t, c.tem);
    }
  }

  /** The octets read from stuffed data are those before stuffing, and reading goes on behind them. */
  lemma {:induction false} Unstuffed(s: seq<byte>, t: seq<byte>, tem: byte, k: nat)
    ensures OctetBits(Chars(Stuffed(s) + t, tem), true, |s| + k)
      == OctetsAsBits(s) + OctetBits(Chars(t, tem), true, k)
  {
    hide NextOctet;
    if s == [] {
      assert [] + t == t;
      assert [] + OctetBits(Chars(t, tem), true, k) == OctetBits(Chars(t, tem), true, k);
    } else {
      OctetUnstuffed(s, t, tem);
      Unstuffed(s[1..], t, tem, k);
      var w := FixedWord(s[0], 8);
      assert w + (OctetsAsBits(s[1..]) + OctetBits(Chars(t, tem), true, k))
          == (w + OctetsAsBits(s[1..])) + OctetBits(Chars(t, tem), true, k);
    }
  }

  /** The next bits are those held and those of the octets before stuffing. */
  lemma AheadStuffed(held: seq<bool>, s: seq<byte>, t: seq<byte>, tem: byte, m: nat)
    requires m <= |held| + 8 * |s|
    ensures Ahead(held, Chars(Stuffed(s) + t, tem), true, m) == (held + OctetsAsBits(s))[..m]
  {
    hide OctetBits, OctetsAsBits, Stuffed;
    var c, k := Chars(Stuffed(s) + t, tem), |s| + m;
    Unstuffed(s, t, tem, m);
    OctetBitsPrefix(c, true, m, k);
    var x, y, b := OctetBits(c, true, m), OctetBits(c, true, k), OctetsAsBits(s);
    forall i | 0 <= i < m ensures (held + x)[i] == (held + b)[i] {
      if i >= |held| { assert x[i - |held|] == y[i - |held|] == b[i - |held|]; }
    }
  }

  /** Without the check the octets are the bytes. */
  lemma {:induction false} Unchecked(s: seq<byte>, t: seq<byte>, tem: byte, k: nat)
    ensures OctetBits(Chars(s + t, tem), false, |s| + k) == OctetsAsBits(s) + OctetBits(Chars(t, tem), false, k)
  {
    var b := OctetBits(Chars(t, tem), false, k);
    if s == [] {
      assert [] + t == t && [] + b == b;
    } else {
      assert (s + t)[0] == s[0] && (s + t)[1..] == s[1..] + t;
      assert NextOctet(Chars(s + t, tem), false) == (s[0], Chars(s[1..] + t, tem));
      hide NextOctet;
      Unchecked(s[1..], t, tem, k);
      assert FixedWord(s[0], 8) + (OctetsAsBits(s[1..]) + b) == (FixedWord(s[0], 8) + OctetsAsBits(s[1..])) + b;
    }
  }

  /** A marker is never passed: with the check its 0xFF is delivered again and again. */
  lemma MarkerStays(n: byte, t: seq<byte>, tem: byte)
    requires n != 0
    ensures NextOctet(Chars([0xFF, n] + t, tem), true) == (0xFF, Chars([0xFF, n] + t, tem))
  {
    var x := [0xFF, n] + t;
    assert x[1..] == [n] + t && x[1..][1..] == t;
  }

  /** Behind the end of the file stands an end-of-image marker. */
  lemma EndMarker(t: seq<byte>)
    ensures
      var c := Chars([], 0);
      && NextChar(c) == (0xFF, NextChar(c).1) && NextChar(NextChar(c).1) == (0xD9, c)
      && NextOctet(c, true).0 == 0xFF && NextOctet(c, true).1 == Chars([0xFF, 0xD9], 0)
  {
  }

  // ---- the reader ----

  /** The unread part of the circular input buffer. */
  function Buffered(buf: seq<byte>, ofs: nat, left: nat): (r: seq<byte>)
    requires |buf| == 256
    ensures |r| == left
  {
    seq(left, i requires 0 <= i < left => buf[(ofs + i) % 256])
  }

  lemma RingNext(ofs: nat, i: nat)
    requires ofs < 256
    ensures ((ofs + 1) % 256 + i) % 256 == (ofs + (i + 1)) % 256
  {
    if ofs == 255 { assert ofs + (i + 1) == 256 + i; }
  }

  lemma TakeBuffered(buf: seq<byte>, ofs: nat, left: nat, file: seq<byte>)
    requires |buf| == 256 && ofs < 256 && left > 0
    ensures
      var s := Buffered(buf, ofs, left) + file;
      s != [] && s[0] == buf[ofs] && s[1..] == Buffered(buf, (ofs + 1) % 256, left - 1) + file
  {
    var b := Buffered(buf, ofs, left);
    var r := Buffered(buf, (ofs + 1) % 256, left - 1);
    forall i | 0 <= i < left - 1
      ensures b[i + 1] == r[i]
    {
      RingNext(ofs, i);
    }
    hide Buffered;
    assert b[1..] == r;
    assert (b + file)[1..] == b[1..] + file;
  }

  lemma {:induction false} ZeroBits(n: nat)
    ensures Value(Zeros(n)) == 0
  {
    if n > 0 {
      ZeroBits(n - 1);
      assert Zeros(n)[..n - 1] == Zeros(n - 1);
    }
  }

  /** How many bits beyond the first eight the buffer holds after n of them are taken. */
  function LeftAfter(left: nat, n: nat): nat
    requires left <= 8 && n <= 8
  {
    if left < n then 8 - (n - left) else left - n
  }

  /** The two bytes of the bit buffer, the second only if it holds any unread bit. */
  function ThrownBack(held: seq<bool>): (r: seq<byte>)
    requires 8 <= |held| <= 16
  {
    ValueBound(held[..8]);
    ValueBound(held[8..] + Zeros(16 - |held|));
    Pow2At16();
    [Value(held[..8])] + (if |held| > 8 then [Value(held[8..] + Zeros(16 - |held|))] else [])
  }

  /** The bytes thrown back carry the bits held and zeros up to the end of the last byte. */
  lemma ThrownBackBits(held: seq<bool>)
    requires 8 <= |held| <= 16
    ensures |ThrownBack(held)| == if |held| == 8 then 1 else 2
    ensures OctetsAsBits(ThrownBack(held)) == held + Zeros(8 * |ThrownBack(held)| - |held|)
  {
    hide Value, FixedWord, Zeros;
    ValueFixedWord(held[..8]);
    if |held| == 8 {
      assert ThrownBack(held)[1..] == [] && held[..8] == held;
    } else {
      var w := held[8..] + Zeros(16 - |held|);
      ValueFixedWord(w);
      assert ThrownBack(held)[1..] == [Value(w)] && [Value(w)][1..] == [];
      assert OctetsAsBits([Value(w)]) == w;
      assert held[..8] + w == held + Zeros(16 - |held|);
    }
  }

  class Reader {
    const inBuf: array<byte>
    var inBufOfs: nat
    var inBufLeft: nat
    var temFlag: byte
    /** What the callback has not delivered yet. */
    var file: seq<byte>

    var bitBuf: nat
    var bitsLeft: nat
    /** The bits in the buffer that have not been read. */
    ghost var held: seq<bool>

    ghost predicate InputValid()
      reads this
    {
      inBuf.Length == 256 && inBufOfs < 256 && inBufLeft <= 255
    }

    ghost function Input(): Chars
      requires InputValid()
      reads this, inBuf
    {
      Chars(Buffered(inBuf[..], inBufOfs, inBufLeft) + file, temFlag)
    }

    /** The top 8 + bitsLeft bits of the bit buffer are the next bits of the stream, the rest are zero. */
    ghost predicate Valid()
      reads this
    {
      && InputValid() && bitsLeft <= 8 && |held| == 8 + bitsLeft && bitBuf == Value(held + Zeros(8 - bitsLeft))
    }

    /** init: nothing read yet, and sixteen zeros in the bit buffer. */
    constructor (source: seq<byte>)
      ensures Valid() && fresh(inBuf) && Input() == Chars(source, 0) && held == Zeros(16) && inBufLeft == 0
    {
      inBuf := new byte[256](_ => 0);
      inBufOfs, inBufLeft, temFlag, file := 0, 0, 0, source;
      bitBuf, bitsLeft, held := 0, 8, Zeros(16);
      new;
      ZeroBits(16);
      assert held + Zeros(0) == held;
      assert Buffered(inBuf[..], 0, 0) + source == source;
    }

    /** fillInBuf: the callback delivers some bytes, and none only at the end of the file. */
    method FillInBuf()
      requires InputValid() && inBufLeft == 0
      modifies this`inBufOfs, this`inBufLeft, this`file, inBuf
      ensures InputValid() && Input() == old(Input()) && (inBufLeft == 0 ==> file == []) && inBufLeft <= 252
    {
      inBufOfs := 4;
      var n :| 0 <= n <= 252 && n <= |file| && (n == 0 ==> file == []);
      forall i | 0 <= i < n { inBuf[4 + i] := file[i]; }
      inBufLeft := n;
      assert Buffered(inBuf[..], 4, n) == file[..n];
      file := file[n..];
      assert old(Buffered(inBuf[..], inBufOfs, 0)) == [];
    }

    method GetChar() returns (c: byte)
      requires InputValid()
      modifies this`inBufOfs, this`inBufLeft, this`file, this`temFlag, inBuf
      ensures InputValid() && (c, Input()) == NextChar(old(Input()))
      ensures inBufLeft < old(inBufLeft) || inBufLeft <= 251
    {
      if inBufLeft == 0 {
        FillInBuf();
        if inBufLeft == 0 {
          temFlag := 0xFF - temFlag;
          return if temFlag != 0 then 0xFF else 0xD9;
        }
      }
      TakeBuffered(inBuf[..], inBufOfs, inBufLeft, file);
      inBufLeft := inBufLeft - 1;
      c := inBuf[inBufOfs];
      inBufOfs := (inBufOfs + 1) % 256;
    }

    method StuffChar(c: byte)
      requires InputValid() && inBufLeft <= 254
      modifies this`inBufOfs, this`inBufLeft, inBuf
      ensures InputValid() && inBufLeft == old(inBufLeft) + 1
      ensures Input() == Chars([c] + old(Input()).rest, temFlag)
    {
      ghost var b := Buffered(inBuf[..], inBufOfs, inBufLeft);
      inBufOfs := (inBufOfs + 255) % 256;
      inBuf[inBufOfs] := c;
      inBufLeft := inBufLeft + 1;
      assert Buffered(inBuf[..], inBufOfs, inBufLeft) == [c] + b;
      assert ([c] + b) + file == [c] + (b + file);
    }

    method GetOctet(ffCheck: bool) returns (c: byte)
      requires InputValid()
      modifies this`inBufOfs, this`inBufLeft, this`file, this`temFlag, inBuf
      ensures InputValid() && (c, Input()) == NextOctet(old(Input()), ffCheck)
      ensures ffCheck ==> Delivers(old(Input()), c, Input())
    {
      hide Delivers, NextChar, NextOctet, Buffered;
      ghost var c0 := Input();
      OctetDelivered(c0);
      OctetCases(c0, ffCheck);
      c := GetChar();
      if ffCheck && c == 0xFF {
        var n := GetChar();
        ghost var c2 := Input();
        if n != 0 {
          StuffChar(n);
          StuffChar(0xFF);
          assert [0xFF] + ([n] + c2.rest) == [0xFF, n] + c2.rest;
        }
      }
    }

    // ---- bits ----

    /** The core of every refill: shifts the bits out, takes in an octet below, and shifts again. */
    method LoadOctet(ffCheck: bool, k: nat)
      requires Valid() && k <= 8
      modifies this, inBuf
      ensures InputValid() && bitsLeft == old(bitsLeft)
      ensures held == (old(held) + FixedWord(NextOctet(old(Input()), ffCheck).0, 8))[old(bitsLeft) + k..]
      ensures bitBuf == Value(held + Zeros(k)) && Input() == NextOctet(old(Input()), ffCheck).1
    {
      hide Value, Or;
      ghost var l := bitsLeft;
      ghost var s0 := held + Zeros(8 - l);
      ShiftLeft(s0, l);
      bitBuf := (bitBuf * Pow2(bitsLeft)) % 0x1_0000;
      assert s0[l..] + Zeros(l) == held[l..] + Zeros(8);
      var o := GetOctet(ffCheck);
      ghost var w := FixedWord(o, 8);
      OrByte(held[l..], o);
      bitBuf := Or(bitBuf, o);
      ghost var s1 := held[l..] + w;
      ShiftLeft(s1, k);
      bitBuf := (bitBuf * Pow2(k)) % 0x1_0000;
      held := (held + w)[l + k..];
      assert held == s1[k..];
    }

    /** Skips bits that the buffer holds. */
    method SkipBits(n: nat)
      requires Valid() && n <= bitsLeft
      modifies this`bitBuf, this`bitsLeft, this`held
      ensures Valid() && held == old(held)[n..]
    {
      hide Value;
      ghost var s := held + Zeros(8 - bitsLeft);
      ShiftLeft(s, n);
      assert s[n..] + Zeros(n) == held[n..] + Zeros(8 - (bitsLeft - n));
      bitsLeft := bitsLeft - n;
      bitBuf := (bitBuf * Pow2(n)) % 0x1_0000;
      held := held[n..];
    }

    /** getBit: the next bit of the stream. */
    method GetBit() returns (r: nat)
      requires Valid()
      modifies this, inBuf
      ensures Valid() && r == if old(Ahead(held, Input(), true, 1))[0] then 1 else 0
      ensures Moved(old(held), old(Input()), held, Input(), true, 1)
    {
      hide Value, And, Or, Ahead;
      ghost var h, c := held, Input();
      AheadTake(h, c, true, 1);
      TopBit(held + Zeros(8 - bitsLeft));
      r := if And(bitBuf, 0x8000) != 0 then 1 else 0;
      if bitsLeft == 0 {
        var o := GetOctet(true);
        OrByte(held, o);
        bitBuf := Or(bitBuf, o);
        held := held + FixedWord(o, 8);
        bitsLeft := bitsLeft + 8;
        assert held + Zeros(0) == held;
        forall m: nat ensures Ahead(held, Input(), true, m) == Ahead(h, c, true, m) { AheadLoad(h, c, true, m); }
      }
      ghost var h1, c1 := held, Input();
      SkipBits(1);
      forall m: nat ensures Ahead(held, Input(), true, m) == Ahead(h, c, true, 1 + m)[1..] {
        AheadDrop(h1, c1, true, 1, m);
      }
    }

    lemma TopBit(s: seq<bool>)
      requires |s| == 16
      ensures And(Value(s), 0x8000) != 0 <==> s[0]
    {
      BitOfValue(s, 0);
      Pow2At16();
      assert Pow2(16) == 2 * Pow2(15);
    }

    /** The second half of getBits: up to eight bits leave the buffer, which is refilled if need be. */
    method Consume(n: nat, ffCheck: bool)
      requires Valid() && n <= 8
      modifies this, inBuf
      ensures Valid() && bitsLeft == LeftAfter(old(bitsLeft), n)
      ensures Moved(old(held), old(Input()), held, Input(), ffCheck, n)
    {
      hide Value, Ahead;
      ghost var h, c := held, Input();
      if bitsLeft < n {
        ghost var l, w := bitsLeft, FixedWord(NextOctet(c, ffCheck).0, 8);
        LoadOctet(ffCheck, n - bitsLeft);
        bitsLeft := 8 - (n - bitsLeft);
        assert held == (h + w)[n..];
        forall m: nat ensures Ahead(held, Input(), ffCheck, m) == Ahead(h, c, ffCheck, n + m)[n..] {
          AheadLoad(h, c, ffCheck, n + m);
          AheadDrop(h + w, Input(), ffCheck, n, m);
        }
      } else {
        SkipBits(n);
        forall m: nat ensures Ahead(held, Input(), ffCheck, m) == Ahead(h, c, ffCheck, n + m)[n..] {
          AheadDrop(h, c, ffCheck, n, m);
        }
      }
    }

    /** The first half of getBits for more than eight bits: one octet is taken in, eight bits leave,
        and the result gathers sixteen bits. */
    method FirstByte(ret0: nat, ffCheck: bool) returns (ret: nat)
      requires Valid() && ret0 == bitBuf
      modifies this, inBuf
      ensures Valid() && bitsLeft == old(bitsLeft) && ret == Value(old(Ahead(held, Input(), ffCheck, 16)))
      ensures Moved(old(held), old(Input()), held, Input(), ffCheck, 8)
    {
      hide Value, Ahead, And, Or;
      ghost var h, c, l := held, Input(), bitsLeft;
      ghost var w := FixedWord(NextOctet(c, ffCheck).0, 8);
      HighByte(h + Zeros(8 - l));
      assert (h + Zeros(8 - l))[..8] == h[..8];
      LoadOctet(ffCheck, 8 - bitsLeft);
      assert held == (h + w)[8..];
      ret := Or(And(ret0, 0xFF00), bitBuf / 0x100);
      LowByte(h[..8], held + Zeros(8 - l));
      assert h[..8] + (held + Zeros(8 - l))[..8] == (h + w)[..16];
      AheadLoad(h, c, ffCheck, 16);
      AheadTake(h + w, Input(), ffCheck, 16);
      forall m: nat ensures Ahead(held, Input(), ffCheck, m) == Ahead(h, c, ffCheck, 8 + m)[8..] {
        AheadLoad(h, c, ffCheck, 8 + m);
        AheadDrop(h + w, Input(), ffCheck, 8, m);
      }
    }

    /** Two bytes put together from two words. */
    lemma LowByte(hi: seq<bool>, s: seq<bool>)
      requires |hi| == 8 && |s| == 16
      ensures Or(Value(hi) * 0x100, Value(s) / 0x100) == Value(hi + s[..8])
    {
      hide Or, Value;
      Pow2At16();
      ShiftRight(s, 8);
      ValueBound(s[..8]);
      OrDisjoint(Value(hi), 8, Value(s[..8]));
      ValueConcat(hi, s[..8]);
    }

    /** getBits: the next `n` bits of the stream as a number. */
    method GetBits(n: nat, ffCheck: bool) returns (r: nat)
      requires Valid() && n <= 16
      modifies this, inBuf
      ensures Valid() && r == Value(old(Ahead(held, Input(), ffCheck, n)))
      ensures
        forall s, t ::
          ffCheck && old(Input()).rest == Stuffed(s) + t && n <= |old(held)| + 8 * |s| ==>
            r == Value((old(held) + OctetsAsBits(s))[..n])
      ensures bitsLeft == LeftAfter(old(bitsLeft), if n > 8 then n - 8 else n)
      ensures Moved(old(held), old(Input()), held, Input(), ffCheck, n)
    {
      hide Value, Ahead, Moved, Stuffed;
      ghost var h, c := held, Input();
      forall s, t | ffCheck && c.rest == Stuffed(s) + t && n <= |h| + 8 * |s|
        ensures Ahead(h, c, ffCheck, n) == (h + OctetsAsBits(s))[..n]
      {
        AheadStuffed(h, s, t, c.tem, n);
      }
      var numBits := n;
      var ret := bitBuf;
      ghost var s := h + Zeros(8 - bitsLeft);
      if numBits > 8 {
        numBits := numBits - 8;
        ret := FirstByte(ret, ffCheck);
        s := Ahead(h, c, ffCheck, 16);
        AheadShorter(h, c, ffCheck, n, 16);
      } else {
        AheadTake(h, c, ffCheck, n);
        assert s[..n] == h[..n];
      }
      assert s[..n] == Ahead(h, c, ffCheck, n);
      ghost var h1, c1 := held, Input();
      Consume(numBits, ffCheck);
      ShiftRight(s, 16 - n);
      r := ret / Pow2(16 - n);
      if n > 8 { MovedTwice(h, c, h1, c1, held, Input(), ffCheck, 8, n - 8); }
    }

    lemma AheadShorter(h: seq<bool>, c: Chars, ffCheck: bool, n: nat, m: nat)
      requires n <= m
      ensures Ahead(h, c, ffCheck, m)[..n] == Ahead(h, c, ffCheck, n)
    {
      OctetBitsPrefix(c, ffCheck, n, m);
    }

    // ---- starting the bit buffer ----

    /** Two reads of eight bits drop what the bit buffer held and load the next octet, so that what is
        ahead is the stream from here on. */
    method Prime(ffCheck: bool)
      requires InputValid() && bitBuf < 0x1_0000
      modifies this, inBuf
      ensures Valid() && bitsLeft == 0 && held == Ahead([], old(Input()), ffCheck, 8)
      ensures forall m: nat :: Ahead(held, Input(), ffCheck, m) == Ahead([], old(Input()), ffCheck, m)
    {
      hide Value, Ahead, Moved, FixedWord, LeftAfter;
      ghost var h, c := FixedWord(bitBuf, 16), Input();
      bitsLeft := 8;
      held := h;
      Pow2At16();
      FixedWordValue(bitBuf, 16);
      assert held + Zeros(0) == held;
      var first := GetBits(8, ffCheck);
      ghost var h1, c1 := held, Input();
      var second := GetBits(8, ffCheck);
      MovedTwice(h, c, h1, c1, held, Input(), ffCheck, 8, 8);
      EmptyAhead(h, c, held, Input(), ffCheck);
      AheadTake(held, Input(), ffCheck, 8);
      TwoReads();
      assert held[..8] == held;
    }

    lemma TwoReads()
      ensures LeftAfter(8, 8) == 0 && LeftAfter(0, 8) == 0
    {
    }

    lemma EmptyAhead(h: seq<bool>, c: Chars, h': seq<bool>, c': Chars, ffCheck: bool)
      requires |h| == 16 && Moved(h, c, h', c', ffCheck, 16)
      ensures forall m: nat :: Ahead(h', c', ffCheck, m) == Ahead([], c, ffCheck, m)
    {
      hide Ahead;
      forall m: nat ensures Ahead(h', c', ffCheck, m) == Ahead([], c, ffCheck, m) {
        AheadDrop(h, c, ffCheck, 16, m);
        assert h[16..] == [];
      }
    }

    /** fixInBuffer: the bytes in the bit buffer, taken in without the check for stuffed zeros, go back
        into the input and are read again with it. */
    method FixInBuffer()
      requires Valid() && inBufLeft <= 253
      modifies this, inBuf
      ensures Valid()
      ensures
        forall m: nat ::
          Ahead(held, Input(), true, m)
            == Ahead([], old(Chars(ThrownBack(held) + Input().rest, Input().tem)), true, m)
    {
      hide Value, Ahead;
      ghost var c := Input();
      ghost var back: seq<byte> := ThrownBack(held);
      BufferBytes(held, bitsLeft);
      if bitsLeft > 0 {
        StuffChar(bitBuf % 0x100);
      }
      StuffChar(bitBuf / 0x100);
      assert Input() == Chars(back + c.rest, c.tem) by {
        if |back| == 2 { assert [back[0]] + ([back[1]] + c.rest) == back + c.rest; }
      }
      Prime(true);
    }

    lemma BufferBytes(h: seq<bool>, left: nat)
      requires left <= 8 && |h| == 8 + left
      ensures
        var v := Value(h + Zeros(8 - left));
        && v < 0x1_0000 && v / 0x100 < 0x100 && ThrownBack(h)[0] == v / 0x100
        && (left > 0 ==> ThrownBack(h) == [v / 0x100, v % 0x100])
        && (left == 0 ==> ThrownBack(h) == [v / 0x100])
    {
      hide Value, Pow2;
      var s := h + Zeros(8 - left);
      assert s[..8] == h[..8] && s[8..] == h[8..] + Zeros(8 - left);
      TwoBytes(s);
    }

    lemma TwoBytes(s: seq<bool>)
      requires |s| == 16
      ensures Value(s) == 0x100 * Value(s[..8]) + Value(s[8..]) < 0x1_0000 && Value(s[..8]) < 0x100
        && Value(s[8..]) < 0x100
      ensures Value(s) / 0x100 == Value(s[..8]) && Value(s) % 0x100 == Value(s[8..])
    {
      hide Value, Pow2;
      assert s == s[..8] + s[8..];
      ValueConcat(s[..8], s[8..]);
      ValueBound(s[..8]);
      ValueBound(s[8..]);
      Pow2At16();
      DivModUnique(Value(s), 0x100, Value(s[..8]), Value(s[8..]));
    }
  }
}
