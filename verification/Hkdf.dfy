/** HKDF-SHA-256 with one buffer serving as MAC input and MAC output. */
module Hkdf {
  import opened Hmac

  // ---- RFC 5869 ----

  /** T(n): the MAC of T(n-1), the info and the counter byte. */
  function T(prk: seq<bv8>, info: seq<bv8>, n: nat): (t: seq<bv8>)
    ensures |t| == if n == 0 then 0 else 32
  {
    if n == 0 then [] else Mac(prk, T(prk, info, n - 1) + info + [(n % 256) as bv8])
  }

  /** T(1) || T(2) || ... || T(n) */
  function Stream(prk: seq<bv8>, info: seq<bv8>, n: nat): (s: seq<bv8>)
    ensures |s| == 32 * n
  {
    if n == 0 then [] else Stream(prk, info, n - 1) + T(prk, info, n)
  }

  /** Asking for fewer blocks gives a prefix. */
  lemma {:induction false} StreamPrefix(prk: seq<bv8>, info: seq<bv8>, m: nat, n: nat)
    requires m <= n
    ensures Stream(prk, info, m) <= Stream(prk, info, n)
    decreases n
  {
    hide T;
    if m < n { StreamPrefix(prk, info, m, n - 1); }
  }

  lemma {:induction false} StreamTag(prk: seq<bv8>, info: seq<bv8>, m: nat, n: nat)
    requires 1 <= m <= n
    ensures Stream(prk, info, n)[32 * (m - 1)..32 * m] == T(prk, info, m)
    decreases n
  {
    hide T;
    if m < n { StreamTag(prk, info, m, n - 1); }
  }

  /** Block m of the stream (section 2.3 of RFC 5869): the MAC of the block before it, the info and the counter. */
  lemma StreamBlock(prk: seq<bv8>, info: seq<bv8>, m: nat, n: nat)
    requires 1 <= m <= n
    ensures
      var s := Stream(prk, info, n);
      var before := if m == 1 then [] else s[32 * (m - 2)..32 * (m - 1)];
      s[32 * (m - 1)..32 * m] == Mac(prk, before + info + [(m % 256) as bv8])
  {
    hide Mac, Stream;
    StreamTag(prk, info, m, n);
    if m > 1 { StreamTag(prk, info, m - 1, n); }
  }

  /** The buffer before T(n+1) is computed: T(n), the info and room for the counter. */
  ghost predicate Ready(text: seq<bv8>, prk: seq<bv8>, info: seq<bv8>, n: nat) {
    && |text| >= 33 + |info| && text[32..32 + |info|] == info
    && (n > 0 ==> text[..32] == T(prk, info, n))
  }

  lemma ReadyStart(text: seq<bv8>, prk: seq<bv8>, info: seq<bv8>)
    requires |text| >= 33 + |info| && text[32..32 + |info|] == info
    ensures Ready(text, prk, info, 0)
  {
  }

  lemma ReadySize(text: seq<bv8>, prk: seq<bv8>, info: seq<bv8>, n: nat)
    requires Ready(text, prk, info, n)
    ensures |text| >= 33 + |info| && (n > 0 ==> text[..32] == T(prk, info, n))
  {
  }

  /** With the counter in place, the buffer holds what the next tag is the MAC of: all of it, or for
      the first tag the part after the tag. */
  lemma MacInput(text: seq<bv8>, prk: seq<bv8>, info: seq<bv8>, n: nat)
    requires Ready(text, prk, info, n)
    ensures
      var ctr := ((n + 1) % 256) as bv8;
      var u := text[32 + |info| := ctr];
      (if n == 0 then u[32..33 + |info|] else u[..33 + |info|]) == T(prk, info, n) + info + [ctr]
  {
    hide T;
    var ctr := ((n + 1) % 256) as bv8;
    var u := text[32 + |info| := ctr];
    assert u[32..33 + |info|] == text[32..32 + |info|] + [ctr];
    if n == 0 {
      assert T(prk, info, 0) == [];
      assert [] + info + [ctr] == info + [ctr];
    } else {
      assert u[..33 + |info|] == text[..32] + (info + [ctr]);
      assert T(prk, info, n) + (info + [ctr]) == T(prk, info, n) + info + [ctr];
    }
  }

  lemma NewTag(text: seq<bv8>, prk: seq<bv8>, info: seq<bv8>, n: nat, text': seq<bv8>)
    requires Ready(text, prk, info, n) && |text'| == |text|
    requires text' == text'[..32] + text[32 + |info| := ((n + 1) % 256) as bv8][32..]
    requires text'[..32] == Mac(prk, T(prk, info, n) + info + [((n + 1) % 256) as bv8])
    ensures Ready(text', prk, info, n + 1)
  {
    hide Mac;
    var u := text[32 + |info| := ((n + 1) % 256) as bv8];
    assert text'[32..32 + |info|] == u[32..32 + |info|] == text[32..32 + |info|];
    assert T(prk, info, n + 1) == text'[..32];
  }

  /** The `confidential static` buffer of Hacl_HKDF.c, next to the statics of HMAC. The annotated
      code declares 161 bytes, enough for an info of up to 128. */
  class HkdfStatics {
    const hmac: HmacStatics
    const text: array<bv8>

    ghost predicate Shape() { hmac.Shape() && text !in hmac.Storage() }

    ghost function Storage(): set<object> { {this, text} + hmac.Storage() }

    constructor (size: nat)
      ensures Shape() && fresh(Storage()) && text.Length == size
    {
      hmac := new HmacStatics();
      text := new bv8[size](_ => 0);
    }

    /** T(n+1) replaces T(n) in the buffer. */
    method NextTag(prk: array<bv8>, prkLen: nat, infoLen: nat, i: nat, ghost info: seq<bv8>)
      requires Shape() && prkLen <= prk.Length && prkLen < 0x1_0000_0000 && prk !in Storage()
      requires |info| == infoLen && 33 + infoLen < 0x1_0000_0000 && Ready(text[..], prk[..prkLen], info, i)
      modifies Storage()
      ensures Ready(text[..], prk[..prkLen], info, i + 1)
    {
      hide Mac, Ready, T;
      ghost var k, t := prk[..prkLen], text[..];
      ReadySize(t, k, info, i);
      text[32 + infoLen] := ((i + 1) % 256) as bv8;
      ghost var u := text[..];
      assert u == t[32 + infoLen := ((i + 1) % 256) as bv8];
      MacInput(t, k, info, i);
      assert text[32..32 + (infoLen + 1)] == u[32..33 + infoLen] && text[0..0 + (33 + infoLen)] == u[..33 + infoLen];
      if i == 0 {
        hmac.Compute(text, prk, prkLen, text, 32, infoLen + 1);
      } else {
        hmac.Compute(text, prk, prkLen, text, 0, 33 + infoLen);
      }
      assert text[..] == text[..32] + u[32..];
      NewTag(t, k, info, i, text[..]);
    }

    /** Computes T(i+1) and copies it, or the front of it, to its place in the output. */
    method NextBlock(okm: array<bv8>, prk: array<bv8>, prkLen: nat, infoLen: nat, i: nat, count: nat,
                     ghost info: seq<bv8>)
      requires Shape() && prkLen <= prk.Length && prkLen < 0x1_0000_0000 && prk !in Storage()
      requires |info| == infoLen && 33 + infoLen < 0x1_0000_0000 && Ready(text[..], prk[..prkLen], info, i)
      requires okm !in Storage() && okm != prk && count <= 32 && 32 * i + count <= okm.Length
      modifies Storage(), okm
      ensures Ready(text[..], prk[..prkLen], info, i + 1)
      ensures okm[..] == old(okm[..32 * i]) + T(prk[..prkLen], info, i + 1)[..count] + old(okm[32 * i + count..])
    {
      hide T, Ready;
      ghost var k := prk[..prkLen];
      NextTag(prk, prkLen, infoLen, i, info);
      ReadySize(text[..], k, info, i + 1);
      CopyTag(okm, 32 * i, count);
      assert prk[..prkLen] == k;
    }

    /** expand_sha2_256: the first `len` bytes of T(1) || T(2) || ..., whatever the storage held. */
    method Expand(okm: array<bv8>, prk: array<bv8>, prkLen: nat, info: array<bv8>, infoLen: nat, len: nat)
      requires Shape() && prkLen <= prk.Length && infoLen <= info.Length && len <= okm.Length
      requires prkLen < 0x1_0000_0000 && 33 + infoLen < 0x1_0000_0000 && 33 + infoLen <= text.Length
      requires prk !in Storage() && info !in Storage() && okm !in Storage() && okm != prk
      modifies Storage(), okm
      ensures okm[..len] == Stream(prk[..prkLen], old(info[..infoLen]), len / 32 + 1)[..len]
        && okm[len..] == old(okm[len..])
    {
      hide T, Stream, Ready;
      ghost var k, inf := prk[..prkLen], info[..infoLen];
      ghost var tail := okm[len..];
      var n := len / 32;
      forall j | 0 <= j < 33 + infoLen { text[j] := 0; }
      forall j | 0 <= j < infoLen { text[32 + j] := info[j]; }
      assert text[32..32 + infoLen] == inf;
      StreamStart(k, inf);
      ReadyStart(text[..], k, inf);
      var i := 0;
      while i < n
        invariant 0 <= i <= n && prk[..prkLen] == k && okm[len..] == tail
        invariant Ready(text[..], k, inf, i) && okm[..32 * i] == Stream(k, inf, i)
      {
        NextBlock(okm, prk, prkLen, infoLen, i, 32, inf);
        StreamNext(k, inf, i);
        i := i + 1;
      }
      StreamNext(k, inf, n);
      if n * 32 < len {
        NextBlock(okm, prk, prkLen, infoLen, n, len - n * 32, inf);
      }
    }

    lemma StreamStart(prk: seq<bv8>, info: seq<bv8>)
      ensures Stream(prk, info, 0) == []
    {
    }

    lemma StreamNext(prk: seq<bv8>, info: seq<bv8>, n: nat)
      ensures Stream(prk, info, n + 1) == Stream(prk, info, n) + T(prk, info, n + 1)
    {
      hide T;
    }

    /** memcpy of the tag to the output */
    method CopyTag(okm: array<bv8>, at: nat, len: nat)
      requires text.Length >= 32 && len <= 32 && at + len <= okm.Length && okm != text
      modifies okm
      ensures okm[..] == old(okm[..at]) + text[..32][..len] + old(okm[at + len..])
    {
      forall j | 0 <= j < len { okm[at + j] := text[j]; }
    }
  }

  /** The original expand: a fresh buffer of exactly the size needed. */
  method ExpandFresh(okm: array<bv8>, prk: array<bv8>, prkLen: nat, info: array<bv8>, infoLen: nat, len: nat)
    requires prkLen <= prk.Length && infoLen <= info.Length && len <= okm.Length
    requires prkLen < 0x1_0000_0000 && 33 + infoLen < 0x1_0000_0000 && okm != prk
    modifies okm
    ensures okm[..len] == Stream(prk[..prkLen], old(info[..infoLen]), len / 32 + 1)[..len]
      && okm[len..] == old(okm[len..])
  {
    hide Stream;
    var locals := new HkdfStatics(33 + infoLen);
    locals.Expand(okm, prk, prkLen, info, infoLen, len);
  }

  /** extract_sha2_256 */
  method Extract(prk: array<bv8>, salt: array<bv8>, saltLen: nat, ikm: array<bv8>, ikmLen: nat)
    requires prk.Length >= 32 && saltLen <= salt.Length && ikmLen <= ikm.Length
    requires saltLen < 0x1_0000_0000 && ikmLen < 0x1_0000_0000
    modifies prk
    ensures prk[..32] == Mac(old(salt[..saltLen]), old(ikm[..ikmLen])) && prk[32..] == old(prk[32..])
  {
    hide Mac;
    ComputeFresh(prk, salt, saltLen, ikm, ikmLen);
  }
}
