/** Huffman tries: paths, prefix-freeness, and their encoding in the `link` array of huffbench. */
module HuffTree {
  import opened Arith
  import opened Bits

  /** A trie over byte values. `zero` is the child reached by bit 0 (positive parent link),
      `one` the child reached by bit 1 (negative parent link). */
  datatype HTree = Leaf(sym: nat) | Fork(id: nat, zero: HTree, one: HTree)

  function RootId(t: HTree): nat { if t.Leaf? then t.sym else t.id }

  ghost function Ids(t: HTree): set<nat> {
    match t
    case Leaf(s) => {s}
    case Fork(id, z, o) => {id} + Ids(z) + Ids(o)
  }

  /** Every node has its own number: leaves the byte value, forks one from 256 up. */
  ghost predicate WellNumbered(t: HTree) {
    match t
    case Leaf(s) => s < 256
    case Fork(id, z, o) =>
      && 256 <= id < 512 && id !in Ids(z) && id !in Ids(o) && Ids(z) !! Ids(o)
      && WellNumbered(z) && WellNumbered(o)
  }

  /** The symbols of the leaves, left to right. */
  ghost function Symbols(t: HTree): seq<nat> {
    match t
    case Leaf(s) => [s]
    case Fork(_, z, o) => Symbols(z) + Symbols(o)
  }

  /** The bits from the root down to the node numbered `id`. */
  ghost function PathTo(t: HTree, id: nat): seq<bool>
    requires id in Ids(t)
  {
    if RootId(t) == id then []
    else if id in Ids(t.zero) then [false] + PathTo(t.zero, id)
    else [true] + PathTo(t.one, id)
  }

  /** The parent links of all nodes below the root are recorded in `link`. */
  ghost predicate Linked(link: seq<int>, t: HTree) {
    |link| == 512 &&
    (t.Fork? && WellNumbered(t) ==>
      && RootId(t.zero) < 512 && RootId(t.one) < 512
      && link[RootId(t.zero)] == t.id && link[RootId(t.one)] == 0 - t.id
      && Linked(link, t.zero) && Linked(link, t.one))
  }

  lemma {:induction false} IdsBound(t: HTree)
    requires WellNumbered(t)
    ensures RootId(t) in Ids(t) && forall x :: x in Ids(t) ==> x < 512
  {
    if t.Fork? {
      IdsBound(t.zero);
      IdsBound(t.one);
    }
  }

  /** A symbol is a leaf exactly when its number occurs. */
  lemma {:induction false} SymbolsAreIds(t: HTree)
    requires WellNumbered(t)
    ensures forall s :: s in Symbols(t) <==> s in Ids(t) && s < 256
  {
    if t.Fork? {
      SymbolsAreIds(t.zero);
      SymbolsAreIds(t.one);
    }
  }

  /** Following one link upward drops the last bit of the path. */
  lemma {:induction false} LinkStep(link: seq<int>, t: HTree, id: nat) returns (parent: nat, bit: bool)
    requires WellNumbered(t) && Linked(link, t) && id in Ids(t) && id != RootId(t)
    ensures id < 512 && 256 <= parent < 512 && parent in Ids(t)
    ensures link[id] == if bit then 0 - parent else parent
    ensures PathTo(t, id) == PathTo(t, parent) + [bit]
  {
    IdsBound(t);
    var Fork(r, z, o) := t;
    IdsBound(z);
    IdsBound(o);
    if id in Ids(z) {
      if id == RootId(z) {
        parent, bit := r, false;
      } else {
        parent, bit := LinkStep(link, z, id);
        assert [false] + (PathTo(z, parent) + [bit]) == ([false] + PathTo(z, parent)) + [bit];
      }
    } else {
      if id == RootId(o) {
        parent, bit := r, true;
      } else {
        parent, bit := LinkStep(link, o, id);
        assert [true] + (PathTo(o, parent) + [bit]) == ([true] + PathTo(o, parent)) + [bit];
      }
    }
  }

  /** The code words of a trie are prefix-free. */
  lemma {:induction false} PathsPrefixFree(t: HTree, a: nat, b: nat)
    requires WellNumbered(t) && a in Symbols(t) && b in Symbols(t) && a in Ids(t) && b in Ids(t)
    requires PathTo(t, a) <= PathTo(t, b)
    ensures a == b
  {
    if t.Fork? {
      SymbolsAreIds(t);
      SymbolsAreIds(t.zero);
      SymbolsAreIds(t.one);
      var x := if a in Ids(t.zero) then t.zero else t.one;
      assert PathTo(t, a)[0] == PathTo(t, b)[0];
      assert PathTo(x, a) == PathTo(t, a)[1..];
      assert PathTo(x, b) == PathTo(t, b)[1..];
      PathsPrefixFree(x, a, b);
    }
  }

  // ---- numbers read from bit strings ----

  /** `unsigned long` and `size_t` have 32 bits on the target. */
  const WORD: nat := 0x1_0000_0000

  /** The node a path leads to in the heap numbering of the decode table. */
  function HeapNumber(bits: seq<bool>): nat {
    if bits == [] then 0
    else 2 * HeapNumber(bits[..|bits| - 1]) + 1 + (if bits[|bits| - 1] then 1 else 0)
  }

  lemma {:induction false} HeapNumberIs(bits: seq<bool>)
    ensures HeapNumber(bits) == Pow2(|bits|) - 1 + Value(bits)
  {
    if bits != [] { HeapNumberIs(bits[..|bits| - 1]); }
  }

  /** Different paths have different heap numbers. */
  lemma {:induction false} HeapNumberInjective(p: seq<bool>, q: seq<bool>)
    requires HeapNumber(p) == HeapNumber(q)
    ensures p == q
  {
    if p != [] && q != [] {
      var p', q' := p[..|p| - 1], q[..|q| - 1];
      assert p[|p| - 1] == q[|q| - 1];
      HeapNumberInjective(p', q');
      assert p == p' + [p[|p| - 1]] && q == q' + [q[|q| - 1]];
    }
  }

  /** Extending a path increases its heap number. */
  lemma {:induction false} HeapNumberGrows(p: seq<bool>, q: seq<bool>)
    requires p <= q
    ensures HeapNumber(p) <= HeapNumber(q)
    ensures p != q ==> HeapNumber(p) < HeapNumber(q)
  {
    if p != q {
      var q' := q[..|q| - 1];
      assert p <= q';
      HeapNumberGrows(p, q');
    }
  }
}
