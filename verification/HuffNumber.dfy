/** The 32-bit numbers the decode table gives to paths of the trie: up to 31 bits they name the path,
    at 32 bits they wrap to the number of the path behind the first one bit. */
module HuffNumber {
  import opened Arith
  import opened Bits
  import opened HuffTree

  /** The decoder's number after reading u, a 32-bit word. */
  function Number(u: seq<bool>): nat { HeapNumber(u) % WORD }

  /** One more bit: to a child in the heap numbering. */
  function Next(k: nat, b: bool): nat { (2 * k + 1 + (if b then 1 else 0)) % WORD }

  /** What is behind the first one bit. */
  function Strip(u: seq<bool>): (r: seq<bool>)
    ensures u != [] ==> |r| < |u|
  {
    if u == [] then [] else if u[0] then u[1..] else Strip(u[1..])
  }

  lemma ShortNumber(u: seq<bool>)
    requires |u| <= 31
    ensures Number(u) == HeapNumber(u) < WORD - 1
    ensures |u| == 31 ==> Number(u) >= WORD / 2 - 1
    ensures |u| < 31 ==> Number(u) < WORD / 2 - 1
  {
    hide HeapNumber, Value, Pow2;
    HeapNumberIs(u);
    ValueBound(u);
    Pow2At32();
    Pow2Add(1, 31);
    Pow2Grows(|u|, 31);
    if |u| < 31 {
      Pow2Grows(|u| + 1, 31);
      Pow2Add(1, |u|);
    } else {
      Pow2Add(1, |u|);
    }
  }

  lemma {:induction false} StripValue(u: seq<bool>)
    requires true in u
    ensures Value(u) == Pow2(|Strip(u)|) + Value(Strip(u))
  {
    hide Value, Pow2;
    assert u == [u[0]] + u[1..];
    ValueCons(u[0], u[1..]);
    if !u[0] { StripValue(u[1..]); }
  }

  lemma {:induction false} NoOnes(u: seq<bool>)
    requires true !in u
    ensures Value(u) == 0
  {
    if u != [] {
      var v := u[..|u| - 1];
      assert forall x :: x in v ==> x in u;
      NoOnes(v);
    }
  }

  lemma StripNumber(u: seq<bool>)
    requires |u| == 32
    ensures if true in u then Number(u) == HeapNumber(Strip(u)) else Number(u) == WORD - 1
  {
    hide HeapNumber, Value, Pow2;
    HeapNumberIs(u);
    ValueBound(u);
    Pow2At32();
    if true in u {
      StripValue(u);
      HeapNumberIs(Strip(u));
      ShortNumber(Strip(u));
    } else {
      NoOnes(u);
    }
  }

  lemma NumberStep(u: seq<bool>, b: bool)
    ensures HeapNumber(u + [b]) == 2 * HeapNumber(u) + 1 + (if b then 1 else 0)
    ensures Number(u + [b]) == Next(Number(u), b)
  {
    var c := if b then 1 else 0;
    assert (u + [b])[..|u|] == u;
    WrapStep(HeapNumber(u), c);
  }

  lemma WrapStep(x: nat, c: nat)
    ensures (2 * x + 1 + c) % WORD == (2 * (x % WORD) + 1 + c) % WORD
  {
    var q, r := x / WORD, 2 * (x % WORD) + 1 + c;
    Arith.DivModUnique(2 * x + 1 + c, WORD, 2 * q + r / WORD, r % WORD);
  }
}
