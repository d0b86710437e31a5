/** CoreMark's linked-list merge sort. */
module CoreMarkList {
  import opened Arith
  import opened MergeSpec

  /** The data of a list item. The sort never changes `idx`. */
  class ListData {
    const idx: int
    var data16: bv16

    constructor (idx: int, data16: bv16)
      ensures this.idx == idx && this.data16 == data16
    {
      this.idx := idx;
      this.data16 := data16;
    }
  }

  class ListHead {
    var next: ListHead?
    const info: ListData

    constructor (info: ListData)
      ensures this.info == info && next == null
    {
      this.info := info;
      next := null;
    }
  }

  // ---- the comparison by index ----

  /** The low byte is replaced by the backup in the high byte. */
  function Regen(x: bv16): bv16 { (x & 0xff00) | ((x >> 8) & 0x00ff) }

  lemma RegenTwice(x: bv16)
    ensures Regen(Regen(x)) == Regen(x)
  {
    assert ((((x & 0xff00) | ((x >> 8) & 0x00ff)) & 0xff00) | ((((x & 0xff00) | ((x >> 8) & 0x00ff)) >> 8) & 0x00ff))
        == (x & 0xff00) | ((x >> 8) & 0x00ff);
    assert Regen(Regen(x)) == Regen((x & 0xff00) | ((x >> 8) & 0x00ff));
  }

  /** After regeneration the low byte is the high byte. */
  lemma RegenBytes(x: bv16)
    ensures Regen(x) & 0x00ff == Regen(x) >> 8 && Regen(x) >> 8 == x >> 8
  {
    assert ((x & 0xff00) | ((x >> 8) & 0x00ff)) & 0x00ff == x >> 8;
    assert ((x & 0xff00) | ((x >> 8) & 0x00ff)) >> 8 == x >> 8;
  }

  // ---- the comparison by calculated value ----

  /** Bit 7 says that the low seven bits hold the result of calc_func. */
  predicate Cached(x: bv16) { x & 0x0080 != 0 }

  function Low7(x: bv16): int { (x & 0x007f) as int }

  function Cache(x: bv16, value: bv16): bv16 { (x & 0xff00) | 0x0080 | (value & 0x007f) }

  lemma CacheBits(x: bv16, value: bv16)
    ensures Cached(Cache(x, value)) && Cache(x, value) & 0x007f == value & 0x007f && Cache(x, value) >> 8 == x >> 8
  {
    assert ((x & 0xff00) | 0x0080 | (value & 0x007f)) & 0x0080 == 0x0080;
    assert ((x & 0xff00) | 0x0080 | (value & 0x007f)) & 0x007f == value & 0x007f;
    assert ((x & 0xff00) | 0x0080 | (value & 0x007f)) >> 8 == x >> 8;
  }

  lemma CacheLow(x: bv16, value: bv16)
    ensures Low7(Cache(x, value)) == Low7(value)
  {
    CacheBits(x, value);
  }

  /** A comparator, with what it does to the data besides comparing. `Plain` only compares; `ByIndex` is
      cmp_idx without results to keep; `ByValue` is cmp_complex, where `value` stands for what the other
      kernels compute for an item: as the result is cached, they are asked at most once for each. */
  datatype Comparator = Plain(order: ListData -> int) | ByIndex | ByValue(value: ListData -> bv16)

  /** The data of an item once it has been compared. */
  function After(cmp: Comparator, d: ListData, x: bv16): bv16 {
    match cmp
    case Plain(_) => x
    case ByIndex => Regen(x)
    case ByValue(value) => if Cached(x) then x else Cache(x, value(d))
  }

  /** The comparator compares an item whose data are x by its key. */
  ghost predicate Tells(cmp: Comparator, key: ListData -> int, d: ListData, x: bv16) {
    match cmp
    case Plain(order) => key(d) == order(d)
    case ByIndex => key(d) == d.idx
    case ByValue(value) => key(d) == if Cached(x) then Low7(x) else Low7(value(d))
  }

  lemma AfterTwice(cmp: Comparator, key: ListData -> int, d: ListData, x: bv16)
    ensures After(cmp, d, After(cmp, d, x)) == After(cmp, d, x)
    ensures Tells(cmp, key, d, x) ==> Tells(cmp, key, d, After(cmp, d, x))
    ensures cmp.ByValue? ==> Cached(After(cmp, d, x))
  {
    hide Regen, Cache, Low7, Cached;
    match cmp
    case Plain(_) =>
    case ByIndex => RegenTwice(x);
    case ByValue(value) =>
      CacheBits(x, value(d));
      CacheLow(x, value(d));
  }

  lemma FlagBits(x: bv16, value: bv16)
    ensures Cached(x) <==> x & 0x0080 != 0
    ensures Low7(x) == (x & 0x007f) as int
    ensures Cache(x, value) & 0x0080 != 0
  {
    assert ((x & 0xff00) | 0x0080 | (value & 0x007f)) & 0x0080 == 0x0080;
  }

  /** The data of an item once its value is known: bit 7 is set, and the low seven bits are those it held if
      bit 7 was set, and those of what the kernel computes if not. */
  lemma CalculatedBits(d: ListData, x: bv16, value: ListData -> bv16)
    ensures
      var y := After(ByValue(value), d, x);
      && y & 0x0080 != 0 && y >> 8 == x >> 8
      && y & 0x007f == (if x & 0x0080 != 0 then x & 0x007f else value(d) & 0x007f)
    ensures Low7(After(ByValue(value), d, x)) == if Cached(x) then Low7(x) else Low7(value(d))
  {
    hide Cached, Cache, Low7;
    FlagBits(x, value(d));
    CacheBits(x, value(d));
    CacheLow(x, value(d));
  }

  /** calc_func: with bit 7 set the data stay and their low seven bits are the result. With bit 7 clear the
      kernel is asked, and bit 7 and the low seven bits of its answer replace the low byte. */
  method CalcFunc(d: ListData, value: ListData -> bv16) returns (r: int)
    modifies d`data16
    ensures old(d.data16) & 0x0080 != 0 ==> d.data16 == old(d.data16) && r == (d.data16 & 0x007f) as int
    ensures
      old(d.data16) & 0x0080 == 0 ==>
        && r == (value(d) & 0x007f) as int && d.data16 & 0x007f == value(d) & 0x007f
        && d.data16 & 0x0080 != 0 && d.data16 >> 8 == old(d.data16) >> 8
    ensures r == Low7(d.data16)
    ensures d.data16 == if Cached(old(d.data16)) then old(d.data16) else Cache(old(d.data16), value(d))
  {
    hide Cached, Cache, Low7;
    var data := d.data16;
    FlagBits(data, value(d));
    if Cached(data) {
      return Low7(data);
    }
    var retval := value(d);
    FlagBits(retval, 0);
    CacheBits(data, retval);
    CacheLow(data, retval);
    d.data16 := Cache(data, retval);
    r := Low7(retval);
  }

  /** The difference of the keys, with what the comparator does to the data of both. */
  method Compare(a: ListData, b: ListData, cmp: Comparator, ghost key: ListData -> int) returns (r: int)
    requires Tells(cmp, key, a, a.data16) && Tells(cmp, key, b, b.data16)
    modifies a`data16, b`data16
    ensures r == key(a) - key(b)
    ensures a.data16 == After(cmp, a, old(a.data16)) && b.data16 == After(cmp, b, old(b.data16))
  {
    hide Regen, Cache, Low7, Cached;
    AfterTwice(cmp, key, a, a.data16);
    AfterTwice(cmp, key, b, b.data16);
    match cmp
    case Plain(order) =>
      r := order(a) - order(b);
    case ByIndex =>
      a.data16 := Regen(a.data16);
      b.data16 := Regen(b.data16);
      r := a.idx - b.idx;
    case ByValue(value) =>
      var val1 := CalcFunc(a, value);
      var val2 := CalcFunc(b, value);
      r := val1 - val2;
  }

  // ---- linked lists ----

  ghost predicate Distinct(s: seq<ListHead>) { forall i, j :: 0 <= i < j < |s| ==> s[i] != s[j] }

  /** Each item but the last points to its successor. */
  ghost predicate Chain(s: seq<ListHead>)
    reads s
  {
    forall i :: 0 <= i < |s| - 1 ==> s[i].next == s[i + 1]
  }

  /** The items reachable from `p`, up to the end of the list. */
  ghost predicate List(p: ListHead?, s: seq<ListHead>)
    reads s
  {
    && Distinct(s) && Chain(s)
    && if s == [] then p == null else p == s[0] && s[|s| - 1].next == null
  }

  /** The state inside a merge: `done` is linked up to `tail`, `a` and `b` are what is left of the two
      runs, `rest` the list after them. */
  ghost predicate Merging(done: seq<ListHead>, a: seq<ListHead>, b: seq<ListHead>, rest: seq<ListHead>,
                          list: ListHead?, tail: ListHead?, p: ListHead?, q: ListHead?)
    reads done, a, b, rest
  {
    && Distinct(done + a + b + rest) && Chain(done) && Chain(a) && List(q, b + rest)
    && (if done == [] then list == null && tail == null else list == done[0] && tail == done[|done| - 1])
    && (a != [] ==> p == a[0])
  }

  /** No item occurs twice among the parts of the list. */
  lemma TailApart(done: seq<ListHead>, a: seq<ListHead>, b: seq<ListHead>, rest: seq<ListHead>)
    requires Distinct(done + a + b + rest) && done != []
    ensures
      var tail := done[|done| - 1];
      tail !in a && tail !in b + rest && forall i :: 0 <= i < |done| - 1 ==> done[i] != tail
  {
    var s := done + a + b + rest;
    var tail, d := done[|done| - 1], |done| - 1;
    assert s[d] == tail;
    forall i | 0 <= i < |a| ensures a[i] != tail { assert s[d + 1 + i] == a[i]; }
    forall i | 0 <= i < |b + rest| ensures (b + rest)[i] != tail { assert s[d + 1 + |a| + i] == (b + rest)[i]; }
    forall i | 0 <= i < d ensures done[i] != tail { assert s[i] == done[i]; }
  }

  lemma DistinctMoved(done: seq<ListHead>, a: seq<ListHead>, b: seq<ListHead>, rest: seq<ListHead>)
    requires Distinct(done + a + b + rest) && b != []
    ensures Distinct(done + [b[0]] + a + b[1..] + rest)
  {
    var s, t := done + a + b + rest, done + [b[0]] + a + b[1..] + rest;
    var d, e := |done|, |done| + |a|;
    forall i, j | 0 <= i < j < |t| ensures t[i] != t[j] {
      var x := if i < d then i else if i == d then e else if i <= e then i - 1 else i;
      var y := if j < d then j else if j == d then e else if j <= e then j - 1 else j;
      assert t[i] == s[x] && t[j] == s[y] && x != y;
    }
  }

  ghost function Only(n: ListHead?): set<ListHead> { if n == null then {} else {n} }

  /** The next item is put at the end of what is merged. */
  method Append(list: ListHead?, tail: ListHead?, e: ListHead, ghost done: seq<ListHead>) returns (list': ListHead?)
    requires if done == [] then list == null && tail == null else list == done[0] && tail == done[|done| - 1]
    requires Chain(done) && forall i :: 0 <= i < |done| - 1 ==> done[i] != tail
    modifies Only(tail)`next
    ensures list' == (done + [e])[0] && Chain(done + [e])
  {
    list' := list;
    if tail != null {
      tail.next := e;
    } else {
      list' := e;
    }
  }

  /** The next item comes from the first run. */
  method TakeFirst(list: ListHead?, tail: ListHead?, p: ListHead, q: ListHead?, ghost done: seq<ListHead>,
                   ghost a: seq<ListHead>, ghost b: seq<ListHead>, ghost rest: seq<ListHead>)
    returns (list': ListHead?, tail': ListHead?, p': ListHead?)
    requires Merging(done, a, b, rest, list, tail, p, q) && a != []
    modifies Only(tail)`next
    ensures Merging(done + [a[0]], a[1..], b, rest, list', tail', p', q)
  {
    var e := p;
    p' := p.next;
    if done != [] { TailApart(done, a, b, rest); }
    ghost var a' := a[1..];
    assert Chain(a') && forall n :: n in a' ==> n in a;
    list' := Append(list, tail, e, done);
    tail' := e;
    assert Chain(a') && List(q, b + rest);
    assert done + [a[0]] + a' + b + rest == done + a + b + rest;
  }

  /** The next item comes from the second run. */
  method TakeSecond(list: ListHead?, tail: ListHead?, p: ListHead?, q: ListHead, ghost done: seq<ListHead>,
                    ghost a: seq<ListHead>, ghost b: seq<ListHead>, ghost rest: seq<ListHead>)
    returns (list': ListHead?, tail': ListHead?, q': ListHead?)
    requires Merging(done, a, b, rest, list, tail, p, q) && b != []
    modifies Only(tail)`next
    ensures Merging(done + [b[0]], a, b[1..], rest, list', tail', p, q')
  {
    var e := q;
    q' := q.next;
    if done != [] { TailApart(done, a, b, rest); }
    ghost var c := (b + rest)[1..];
    assert c == b[1..] + rest && List(q', c) && forall n :: n in c ==> n in b + rest;
    list' := Append(list, tail, e, done);
    tail' := e;
    assert Chain(a) && List(q', c);
    DistinctMoved(done, a, b, rest);
  }

  // ---- what the comparisons do to the data ----

  /** All data are as they were at first or as a comparison leaves them; those in `seen` have been compared. */
  ghost predicate DataState(infos: set<ListData>, orig: map<ListData, bv16>, seen: set<ListData>, cmp: Comparator,
                            key: ListData -> int)
    reads infos
  {
    && infos <= orig.Keys && seen <= infos
    && (forall d :: d in infos ==>
          Tells(cmp, key, d, orig[d]) && (d.data16 == orig[d] || d.data16 == After(cmp, d, orig[d])))
    && (forall d :: d in seen ==> d.data16 == After(cmp, d, orig[d]))
  }

  method CompareItems(a: ListData, b: ListData, cmp: Comparator, ghost key: ListData -> int,
                      ghost infos: set<ListData>, ghost orig: map<ListData, bv16>, ghost seen: set<ListData>)
    returns (r: int)
    requires a in infos && b in infos && DataState(infos, orig, seen, cmp, key)
    modifies infos`data16
    ensures r == key(a) - key(b) && DataState(infos, orig, seen + {a, b}, cmp, key)
  {
    hide After, Tells;
    AfterTwice(cmp, key, a, orig[a]);
    AfterTwice(cmp, key, b, orig[b]);
    r := Compare(a, b, cmp, key);
    forall d | d in infos && d != a && d != b ensures d.data16 == old(d.data16) { }
    forall d | d in seen + {a, b} ensures d.data16 == After(cmp, d, orig[d]) {
      if d != a && d != b { assert d in seen; }
    }
  }

  // ---- one merge ----

  function KeyOf(key: ListData -> int): ListHead -> int { (n: ListHead) => key(n.info) }

  /** All items belong to the list being sorted. */
  ghost predicate Within(s: seq<ListHead>, nodes: set<ListHead>, infos: set<ListData>) {
    forall n :: n in s ==> n in nodes && n.info in infos
  }

  /** The merge loop between two turns: the counters agree with what is left of the runs. */
  ghost predicate Turning(done: seq<ListHead>, a: seq<ListHead>, b: seq<ListHead>, rest: seq<ListHead>,
                          list: ListHead?, tail: ListHead?, p: ListHead?, q: ListHead?, psize: nat, qsize: nat,
                          nodes: set<ListHead>, infos: set<ListData>)
    reads done, a, b, rest
  {
    && Merging(done, a, b, rest, list, tail, p, q) && Within(done + a + b + rest, nodes, infos)
    && psize == |a| && qsize >= |b| && (qsize > |b| ==> rest == [])
  }

  /** One turn of the merge loop. */
  method MergeStep(list: ListHead?, tail: ListHead?, p: ListHead?, q: ListHead?, psize: nat, qsize: nat,
                   cmp: Comparator, ghost key: ListData -> int,
                   ghost done: seq<ListHead>, ghost a: seq<ListHead>, ghost b: seq<ListHead>, ghost rest: seq<ListHead>,
                   ghost nodes: set<ListHead>, ghost infos: set<ListData>, ghost orig: map<ListData, bv16>,
                   ghost seen: set<ListData>)
    returns (list': ListHead?, tail': ListHead?, p': ListHead?, q': ListHead?, psize': nat, qsize': nat,
             ghost done': seq<ListHead>, ghost a': seq<ListHead>, ghost b': seq<ListHead>)
    requires Turning(done, a, b, rest, list, tail, p, q, psize, qsize, nodes, infos) && (a != [] || b != [])
    requires DataState(infos, orig, seen, cmp, key)
    modifies nodes`next, infos`data16
    ensures Turning(done', a', b', rest, list', tail', p', q', psize', qsize', nodes, infos)
    ensures done' + Merge(a', b', KeyOf(key)) == done + Merge(a, b, KeyOf(key)) && |a'| + |b'| < |a| + |b|
    ensures DataState(infos, orig, if a != [] && b != [] then seen + {a[0].info, b[0].info} else seen, cmp, key)
  {
    hide Merging, DataState;
    ghost var k := KeyOf(key);
    p', q', psize', qsize', done', a', b' := p, q, psize, qsize, done, a, b;
    MergingHeads(done, a, b, rest, list, tail, p, q);
    WithinMoved(done, a, b, rest, nodes, infos);
    assert forall n :: n in a || n in b || n in done ==> n in done + a + b + rest;
    if psize == 0 {
      list', tail', q' := TakeSecond(list, tail, p, q, done, a, b, rest);
      qsize' := qsize - 1;
      done', b' := done + [b[0]], b[1..];
    } else if qsize == 0 || q == null {
      list', tail', p' := TakeFirst(list, tail, p, q, done, a, b, rest);
      psize' := psize - 1;
      done', a' := done + [a[0]], a[1..];
    } else {
      var c := CompareItems(p.info, q.info, cmp, key, infos, orig, seen);
      if c <= 0 {
        list', tail', p' := TakeFirst(list, tail, p, q, done, a, b, rest);
        psize' := psize - 1;
        done', a' := done + [a[0]], a[1..];
      } else {
        list', tail', q' := TakeSecond(list, tail, p, q, done, a, b, rest);
        qsize' := qsize - 1;
        done', b' := done + [b[0]], b[1..];
      }
    }
    MergeHead(done, a, b, k);
  }

  lemma MergeHead(done: seq<ListHead>, a: seq<ListHead>, b: seq<ListHead>, k: ListHead -> int)
    ensures a != [] && (b == [] || k(a[0]) - k(b[0]) <= 0) ==>
      (done + [a[0]]) + Merge(a[1..], b, k) == done + Merge(a, b, k)
    ensures b != [] && (a == [] || k(a[0]) - k(b[0]) > 0) ==>
      (done + [b[0]]) + Merge(a, b[1..], k) == done + Merge(a, b, k)
  {
    if a != [] && b == [] { assert Merge(a[1..], b, k) == a[1..]; }
    if b != [] && a == [] { assert Merge(a, b[1..], k) == b[1..]; }
  }

  lemma TurningEnds(done: seq<ListHead>, a: seq<ListHead>, b: seq<ListHead>, rest: seq<ListHead>,
                    list: ListHead?, tail: ListHead?, p: ListHead?, q: ListHead?, psize: nat, qsize: nat,
                    nodes: set<ListHead>, infos: set<ListData>)
    requires Turning(done, a, b, rest, list, tail, p, q, psize, qsize, nodes, infos)
    ensures psize > 0 || (qsize > 0 && q != null) <==> a != [] || b != []
  {
  }

  /** Merges two runs onto the end of the list: stable, and comparing at least the first items of both. */
  method MergeRuns(list0: ListHead?, tail0: ListHead?, p0: ListHead?, q0: ListHead?, psize0: nat, insize: nat,
                   cmp: Comparator, ghost key: ListData -> int,
                   ghost done0: seq<ListHead>, ghost a0: seq<ListHead>, ghost b0: seq<ListHead>,
                   ghost rest: seq<ListHead>,
                   ghost nodes: set<ListHead>, ghost infos: set<ListData>, ghost orig: map<ListData, bv16>,
                   ghost seen0: set<ListData>)
    returns (list: ListHead?, tail: ListHead?, q: ListHead?, ghost seen: set<ListData>)
    requires Turning(done0, a0, b0, rest, list0, tail0, p0, q0, psize0, insize, nodes, infos)
    requires DataState(infos, orig, seen0, cmp, key)
    modifies nodes`next, infos`data16
    ensures Merging(done0 + Merge(a0, b0, KeyOf(key)), [], [], rest, list, tail, null, q)
    ensures DataState(infos, orig, seen, cmp, key) && seen0 <= seen
    ensures a0 != [] && b0 != [] ==> a0[0].info in seen && b0[0].info in seen
  {
    hide Turning, DataState, Merge;
    list, tail, q, seen := list0, tail0, q0, seen0;
    var p := p0;
    var psize, qsize := psize0, insize;
    ghost var done, a, b := done0, a0, b0;
    TurningEnds(done, a, b, rest, list, tail, p, q, psize, qsize, nodes, infos);
    while psize > 0 || (qsize > 0 && q != null)
      invariant Turning(done, a, b, rest, list, tail, p, q, psize, qsize, nodes, infos)
      invariant psize > 0 || (qsize > 0 && q != null) <==> a != [] || b != []
      invariant done + Merge(a, b, KeyOf(key)) == done0 + Merge(a0, b0, KeyOf(key))
      invariant DataState(infos, orig, seen, cmp, key) && seen0 <= seen
      invariant (a == a0 && b == b0) || a0 == [] || b0 == [] || (a0[0].info in seen && b0[0].info in seen)
      decreases |a| + |b|
    {
      ghost var seen' := if a != [] && b != [] then seen + {a[0].info, b[0].info} else seen;
      list, tail, p, q, psize, qsize, done, a, b :=
        MergeStep(list, tail, p, q, psize, qsize, cmp, key, done, a, b, rest, nodes, infos, orig, seen);
      seen := seen';
      TurningEnds(done, a, b, rest, list, tail, p, q, psize, qsize, nodes, infos);
    }
    MergingDone(done, rest, list, tail, p, q, psize, qsize, nodes, infos, KeyOf(key));
  }

  lemma MergingDone(done: seq<ListHead>, rest: seq<ListHead>, list: ListHead?, tail: ListHead?, p: ListHead?,
                    q: ListHead?, psize: nat, qsize: nat, nodes: set<ListHead>, infos: set<ListData>,
                    k: ListHead -> int)
    requires Turning(done, [], [], rest, list, tail, p, q, psize, qsize, nodes, infos)
    ensures Merging(done + Merge([], [], k), [], [], rest, list, tail, null, q)
  {
    assert done + Merge([], [], k) == done;
  }

  lemma WithinMoved(done: seq<ListHead>, a: seq<ListHead>, b: seq<ListHead>, rest: seq<ListHead>,
                    nodes: set<ListHead>, infos: set<ListData>)
    requires Within(done + a + b + rest, nodes, infos)
    ensures a != [] ==> Within(done + [a[0]] + a[1..] + b + rest, nodes, infos)
    ensures b != [] ==> Within(done + [b[0]] + a + b[1..] + rest, nodes, infos)
  {
    var s := done + a + b + rest;
    assert forall n :: n in done || n in a || n in b || n in rest ==> n in s;
  }

  lemma MergingHeads(done: seq<ListHead>, a: seq<ListHead>, b: seq<ListHead>, rest: seq<ListHead>,
                     list: ListHead?, tail: ListHead?, p: ListHead?, q: ListHead?)
    requires Merging(done, a, b, rest, list, tail, p, q)
    ensures (a != [] ==> p == a[0]) && (b != [] ==> q == b[0]) && (b + rest == [] ==> q == null)
    ensures tail != null ==> tail in done
  {
  }

  // ---- one pass ----

  /** Steps `insize` places along from the start of the list, or to its end. */
  method StepAlong(p: ListHead, insize: nat, ghost s: seq<ListHead>) returns (q: ListHead?, psize: nat)
    requires List(p, s) && s != [] && insize > 0
    ensures psize == Min(insize, |s|) && q == if psize < |s| then s[psize] else null
  {
    q, psize := p, 0;
    var i := 0;
    while i < insize
      invariant 0 <= i == psize <= Min(insize, |s|) && (i > 0 ==> psize < |s|) && q == s[psize]
      decreases insize - i
    {
      psize := psize + 1;
      q := q.next;
      assert psize < |s| ==> q == s[psize];
      if q == null {
        break;
      }
      i := i + 1;
    }
  }

  /** Two runs are cut off the front of the list. */
  lemma CutRuns(done: seq<ListHead>, s: seq<ListHead>, k: nat, list: ListHead?, tail: ListHead?, p: ListHead?,
                q: ListHead?, nodes: set<ListHead>, infos: set<ListData>)
    requires Merging(done, [], [], s, list, tail, null, p) && Within(done + s, nodes, infos) && k > 0 && s != []
    requires q == if k < |s| then s[k] else null
    ensures
      var x, y := Min(k, |s|), Min(2 * k, |s|);
      Turning(done, s[..x], s[x..y], s[y..], list, tail, p, q, x, k, nodes, infos)
  {
    hide Within, Distinct, Chain, List;
    var x, y := Min(k, |s|), Min(2 * k, |s|);
    Unsplit(done, s);
    Resplit(done, s, x, y);
    ListTail(p, s, x);
  }

  lemma Unsplit(done: seq<ListHead>, s: seq<ListHead>)
    ensures [] + s == s && done + [] + [] + s == done + s
  {
    assert [] + s == s;
    assert done + [] == done;
  }

  lemma Resplit(done: seq<ListHead>, s: seq<ListHead>, x: nat, y: nat)
    requires x <= y <= |s|
    ensures s[x..y] + s[y..] == s[x..] && done + s[..x] + s[x..y] + s[y..] == done + s
  {
    assert s[..x] + s[x..y] == s[..y];
    assert done + s[..x] + s[x..y] == done + s[..y];
  }

  lemma ListTail(p: ListHead?, s: seq<ListHead>, x: nat)
    requires List(p, s) && x <= |s|
    ensures Chain(s[..x]) && List(if x < |s| then s[x] else null, s[x..]) && (s != [] ==> p == s[0])
  {
  }

  /** What has been compared before a pass over runs of k: all items but, possibly, a last one alone in its run. */
  ghost predicate SeenRuns(s: seq<ListHead>, k: nat, seen: set<ListData>)
    requires k > 0
  {
    forall i :: 0 <= i < |s| ==> k == 1 || (i == |s| - 1 && |s| % k == 1) || s[i].info in seen
  }

  /** What has been compared in the part of the list a pass has dealt with; `left` is what remains of it. */
  ghost predicate SeenDone(done: seq<ListHead>, n: nat, k: nat, left: nat, seen: set<ListData>)
    requires k > 0
  {
    forall i :: 0 <= i < |done| ==> done[i].info in seen || (left == 0 && i == |done| - 1 && n % (2 * k) == 1)
  }

  lemma LoneRun(n: nat, k: nat)
    requires 0 < n <= 2 * k && n % k == 1 && k >= 2
    ensures n == 1 || n == k + 1
  {
    if n > k { assert (n - k) % k == 1 by { ModShift(n, k); } }
  }

  lemma ModShift(n: nat, k: nat)
    requires 0 < k <= n
    ensures (n - k) % k == n % k
  {
    var q, r := n / k, n % k;
    assert n - k == k * (q - 1) + r;
    DivModUnique(n - k, k, q - 1, r);
  }

  /** Both runs of a merge are compared: by earlier passes, or as the first item of a run. */
  lemma SeenBothRuns(s: seq<ListHead>, k: nat, key: ListHead -> int, seen: set<ListData>, seen': set<ListData>)
    requires 0 < k < |s| && SeenRuns(s, k, seen) && seen <= seen' && s[0].info in seen' && s[k].info in seen'
    ensures forall h :: h in Merge(s[..k], s[k..Min(2 * k, |s|)], key) ==> h.info in seen'
  {
    var y := Min(2 * k, |s|);
    forall h | h in Merge(s[..k], s[k..y], key) ensures h.info in seen' {
      MergeMembers(s[..k], s[k..y], key, h);
      assert h in s[..y];
      var i :| 0 <= i < y && s[i] == h;
      if k >= 2 && i == |s| - 1 && |s| % k == 1 { LoneRun(|s|, k); }
    }
  }

  lemma SeenAppend(done: seq<ListHead>, m: seq<ListHead>, n: nat, k: nat, left: nat, left': nat, seen: set<ListData>,
                   seen': set<ListData>)
    requires k > 0 && left > 0 && SeenDone(done, n, k, left, seen) && seen <= seen'
    requires forall h :: h in m ==> h.info in seen'
    ensures SeenDone(done + m, n, k, left', seen')
  {
    forall i | 0 <= i < |done + m| ensures (done + m)[i].info in seen' {
      if i >= |done| { assert (done + m)[i] == m[i - |done|] && m[i - |done|] in m; }
    }
  }

  /** A last run without a partner stays as it is; only a single item in it may be new. */
  lemma SeenLastRun(done: seq<ListHead>, s: seq<ListHead>, n: nat, k: nat, seen: set<ListData>, seen': set<ListData>)
    requires 0 < |s| <= k && n % (2 * k) == |s| % (2 * k) && SeenRuns(s, k, seen) && SeenDone(done, n, k, |s|, seen)
    requires seen <= seen'
    ensures SeenDone(done + s, n, k, 0, seen')
  {
    assert |s| % (2 * k) == |s|;
    forall i | 0 <= i < |s| && i < |s| - 1 ensures s[i].info in seen' { }
    if k >= 2 && |s| % k == 1 { LoneRun(|s|, k); }
  }

  /** A merge adds its two runs to what has been compared. */
  lemma SeenMerge(done: seq<ListHead>, s: seq<ListHead>, n: nat, k: nat, key: ListHead -> int,
                  seen: set<ListData>, seen': set<ListData>)
    requires k > 0 && s != [] && n % (2 * k) == |s| % (2 * k) && SeenRuns(s, k, seen) && SeenDone(done, n, k, |s|, seen)
    requires
      var x, y := Min(k, |s|), Min(2 * k, |s|);
      seen <= seen' && (x < |s| ==> s[0].info in seen' && s[x].info in seen')
    ensures
      var x, y := Min(k, |s|), Min(2 * k, |s|);
      && SeenRuns(s[y..], k, seen') && (y < |s| ==> n % (2 * k) == (|s| - y) % (2 * k))
      && SeenDone(done + Merge(s[..x], s[x..y], key), n, k, |s| - y, seen')
  {
    var x, y := Min(k, |s|), Min(2 * k, |s|);
    if |s| > 2 * k {
      ModShift(|s|, 2 * k);
      RunShift(|s|, k);
    }
    SeenTail(s, y, k, seen, seen');
    if x < |s| {
      SeenBothRuns(s, k, key, seen, seen');
      SeenAppend(done, Merge(s[..x], s[x..y], key), n, k, |s|, |s| - y, seen, seen');
    } else {
      assert s[x..y] == [] && s[..x] == s && Merge(s, s[x..y], key) == s;
      SeenLastRun(done, s, n, k, seen, seen');
    }
  }

  lemma SeenTail(s: seq<ListHead>, y: nat, k: nat, seen: set<ListData>, seen': set<ListData>)
    requires 0 < k && y <= |s| && SeenRuns(s, k, seen) && seen <= seen' && (y < |s| ==> (|s| - y) % k == |s| % k)
    ensures SeenRuns(s[y..], k, seen')
  {
  }

  lemma RunShift(n: nat, k: nat)
    requires 0 < k && 2 * k <= n
    ensures (n - 2 * k) % k == n % k
  {
    ModShift(n, k);
    ModShift(n - k, k);
  }

  /** A pass between two merges: `done` is merged, `s` is still to do. */
  ghost predicate Passing(done: seq<ListHead>, s: seq<ListHead>, s0: seq<ListHead>, insize: nat, k: ListHead -> int,
                          list: ListHead?, tail: ListHead?, p: ListHead?, nodes: set<ListHead>, infos: set<ListData>,
                          seen: set<ListData>)
    requires insize > 0
    reads done, s
  {
    && Merging(done, [], [], s, list, tail, null, p) && Within(done + s, nodes, infos)
    && done + Pass(s, insize, k) == Pass(s0, insize, k) && |done| + |s| == |s0|
    && SeenRuns(s, insize, seen) && SeenDone(done, |s0|, insize, |s|, seen)
    && (s != [] ==> |s0| % (2 * insize) == |s| % (2 * insize))
  }

  /** The next two runs of a pass. */
  method MergeNext(list0: ListHead?, tail0: ListHead?, p: ListHead, insize: nat,
                   cmp: Comparator, ghost key: ListData -> int,
                   ghost done: seq<ListHead>, ghost s: seq<ListHead>, ghost s0: seq<ListHead>,
                   ghost nodes: set<ListHead>, ghost infos: set<ListData>, ghost orig: map<ListData, bv16>,
                   ghost seen0: set<ListData>)
    returns (list: ListHead?, tail: ListHead?, q: ListHead?, ghost seen: set<ListData>, ghost done': seq<ListHead>)
    requires insize > 0 && s != [] && Passing(done, s, s0, insize, KeyOf(key), list0, tail0, p, nodes, infos, seen0)
    requires DataState(infos, orig, seen0, cmp, key)
    modifies nodes`next, infos`data16
    ensures |done'| == |done| + Min(2 * insize, |s|) && DataState(infos, orig, seen, cmp, key)
    ensures Passing(done', s[Min(2 * insize, |s|)..], s0, insize, KeyOf(key), list, tail, q, nodes, infos, seen)
  {
    hide Merging, Turning, DataState, Within, SeenRuns, SeenDone, Pass, Merge;
    ghost var k := KeyOf(key);
    RestIsList(done, s, list0, tail0, p);
    var psize;
    q, psize := StepAlong(p, insize, s);
    CutRuns(done, s, insize, list0, tail0, p, q, nodes, infos);
    ghost var x, y := Min(insize, |s|), Min(2 * insize, |s|);
    list, tail, q, seen := MergeRuns(list0, tail0, p, q, psize, insize, cmp, key, done, s[..x], s[x..y], s[y..],
                                     nodes, infos, orig, seen0);
    SeenMerge(done, s, |s0|, insize, k, seen0, seen);
    PassStep(done, s, insize, k, nodes, infos);
    done' := done + Merge(s[..x], s[x..y], k);
  }

  /** One pass over the list. */
  method PassOver(list0: ListHead, insize: nat, cmp: Comparator, ghost key: ListData -> int, ghost s0: seq<ListHead>,
                  ghost nodes: set<ListHead>, ghost infos: set<ListData>, ghost orig: map<ListData, bv16>,
                  ghost seen0: set<ListData>)
    returns (list: ListHead?, nmerges: nat, ghost seen: set<ListData>)
    requires s0 != [] && List(list0, s0) && Within(s0, nodes, infos) && insize > 0
    requires DataState(infos, orig, seen0, cmp, key) && SeenRuns(s0, insize, seen0)
    modifies nodes`next, infos`data16
    ensures List(list, Pass(s0, insize, KeyOf(key))) && Within(Pass(s0, insize, KeyOf(key)), nodes, infos)
    ensures nmerges <= 1 <==> |s0| <= 2 * insize
    ensures DataState(infos, orig, seen, cmp, key) && SeenDone(Pass(s0, insize, KeyOf(key)), |s0|, insize, 0, seen)
  {
    hide Passing, DataState, Pass, Within, SeenDone, SeenRuns;
    var p: ListHead?, tail: ListHead? := list0, null;
    list, nmerges, seen := null, 0, seen0;
    ghost var done: seq<ListHead>, s := [], s0;
    ghost var k := KeyOf(key);
    PassStart(s0, p, insize, k, nodes, infos, seen);
    while p != null
      invariant Passing(done, s, s0, insize, k, list, tail, p, nodes, infos, seen)
      invariant (p == null <==> s == []) && |done| + |s| == |s0| && DataState(infos, orig, seen, cmp, key)
      invariant nmerges == 0 ==> done == []
      invariant nmerges == 1 ==> |done| == Min(2 * insize, |s0|)
      invariant nmerges >= 2 ==> |s0| > 2 * insize
      decreases |s|
    {
      nmerges := nmerges + 1;
      ghost var done';
      list, tail, p, seen, done' := MergeNext(list, tail, p, insize, cmp, key, done, s, s0, nodes, infos, orig, seen);
      done, s := done', s[Min(2 * insize, |s|)..];
      PassingRest(done, s, s0, insize, k, list, tail, p, nodes, infos, seen);
    }
    PassEnd(done, s, s0, insize, k, list, tail, nodes, infos, seen);
    tail.next := null;
  }

  lemma PassingRest(done: seq<ListHead>, s: seq<ListHead>, s0: seq<ListHead>, insize: nat, k: ListHead -> int,
                    list: ListHead?, tail: ListHead?, p: ListHead?, nodes: set<ListHead>, infos: set<ListData>,
                    seen: set<ListData>)
    requires insize > 0 && Passing(done, s, s0, insize, k, list, tail, p, nodes, infos, seen)
    ensures (p == null <==> s == []) && |done| + |s| == |s0|
  {
    RestIsList(done, s, list, tail, p);
  }

  lemma PassStart(s: seq<ListHead>, p: ListHead?, k: nat, key: ListHead -> int, nodes: set<ListHead>,
                  infos: set<ListData>, seen: set<ListData>)
    requires List(p, s) && k > 0 && Within(s, nodes, infos) && SeenRuns(s, k, seen)
    ensures Passing([], s, s, k, key, null, null, p, nodes, infos, seen) && (p == null <==> s == [])
  {
    hide Pass;
    Unsplit([], s);
    assert [] + Pass(s, k, key) == Pass(s, k, key);
  }

  lemma RestIsList(done: seq<ListHead>, s: seq<ListHead>, list: ListHead?, tail: ListHead?, p: ListHead?)
    requires Merging(done, [], [], s, list, tail, null, p)
    ensures List(p, s) && (p == null <==> s == [])
  {
    assert [] + s == s;
  }

  lemma PassStep(done: seq<ListHead>, s: seq<ListHead>, k: nat, key: ListHead -> int, nodes: set<ListHead>,
                 infos: set<ListData>)
    requires k > 0 && s != [] && Within(done + s, nodes, infos)
    ensures
      var x, y := Min(k, |s|), Min(2 * k, |s|);
      var m := Merge(s[..x], s[x..y], key);
      && (done + m) + Pass(s[y..], k, key) == done + Pass(s, k, key)
      && Within(done + m + s[y..], nodes, infos)
  {
    var x, y := Min(k, |s|), Min(2 * k, |s|);
    var m := Merge(s[..x], s[x..y], key);
    assert (done + m) + Pass(s[y..], k, key) == done + (m + Pass(s[y..], k, key));
    forall n | n in done + m + s[y..] ensures n in done + s {
      if n in m { MergeMembers(s[..x], s[x..y], key, n); }
    }
  }

  lemma PassEnd(done: seq<ListHead>, s: seq<ListHead>, s0: seq<ListHead>, k: nat, key: ListHead -> int,
                list: ListHead?, tail: ListHead?, nodes: set<ListHead>, infos: set<ListData>, seen: set<ListData>)
    requires k > 0 && s0 != [] && s == [] && Passing(done, s, s0, k, key, list, tail, null, nodes, infos, seen)
    ensures done == Pass(s0, k, key) && Within(done, nodes, infos) && SeenDone(done, |s0|, k, 0, seen)
    ensures Distinct(done) && Chain(done) && list == done[0] && tail == done[|done| - 1] && tail in nodes
    ensures forall i :: 0 <= i < |done| - 1 ==> done[i] != tail
  {
    hide SeenDone, SeenRuns;
    Unsplit(done, s);
    assert done + [] == done;
    assert done != [];
  }

  // ---- the sort ----

  lemma AllSeen(s: seq<ListHead>, n: nat, k: nat, seen: set<ListData>)
    requires k > 0 && 2 <= n <= 2 * k && SeenDone(s, n, k, 0, seen)
    ensures forall h :: h in s ==> h.info in seen
  {
    assert n % (2 * k) != 1 by { if n == 2 * k { assert n % (2 * k) == 0; } }
  }

  lemma SeenNext(s: seq<ListHead>, n: nat, k: nat, seen: set<ListData>)
    requires k > 0 && n == |s| && SeenDone(s, n, k, 0, seen)
    ensures SeenRuns(s, 2 * k, seen)
  {
  }

  lemma SeenFirst(s: seq<ListHead>)
    ensures SeenRuns(s, 1, {})
  {
  }

  /** The merge sort: the same items, linked in the order that stable sorting by key gives. From two items
      on every item has been compared, with what that does to its data. The run length stays below the
      length of the list, so a 32-bit `insize` holds it. The list must not be empty: at the end of a pass
      the source writes through the last item. */
  method MergeSort(list0: ListHead, cmp: Comparator, ghost key: ListData -> int, ghost s0: seq<ListHead>)
    returns (list: ListHead, ghost r: seq<ListHead>)
    requires s0 != [] && List(list0, s0) && forall h :: h in s0 ==> Tells(cmp, key, h.info, h.info.data16)
    modifies (set h | h in s0)`next, (set h | h in s0 :: h.info)`data16
    ensures List(list, r) && r == Passes(s0, 1, KeyOf(key))
    ensures Sorted(r, KeyOf(key)) && multiset(r) == multiset(s0)
    ensures forall v :: Class(r, KeyOf(key), v) == Class(s0, KeyOf(key), v)
    ensures |s0| >= 2 ==> forall h :: h in s0 ==> h.info.data16 == After(cmp, h.info, old(h.info.data16))
    ensures forall h :: h in s0 ==> h.info.data16 in {old(h.info.data16), After(cmp, h.info, old(h.info.data16))}
  {
    hide Passes, Sorted, Class, Runs, List, Within, SeenRuns, SeenDone, After, Tells, DataState, Pass;
    ghost var nodes, infos := set h | h in s0, set h | h in s0 :: h.info;
    ghost var orig := map d | d in infos :: d.data16;
    ghost var k := KeyOf(key);
    OneRuns(s0, k);
    PassesSort(s0, 1, k);
    SeenFirst(s0);
    DataAtStart(s0, infos, orig, cmp, key);
    ghost var s, seen: set<ListData> := s0, {};
    AllWithin(s0, nodes, infos);
    var p: ListHead? := list0;
    var insize := 1;
    while true
      invariant insize > 0 && s != [] && |s| == |s0| && List(p, s) && Within(s, nodes, infos)
      invariant Passes(s, insize, k) == Passes(s0, 1, k)
      invariant DataState(infos, orig, seen, cmp, key) && SeenRuns(s, insize, seen)
      invariant insize == 1 || insize < |s0|
      decreases |s| - insize
    {
      ListStart(p, s);
      var nmerges;
      PassesUnfold(s, insize, k);
      p, nmerges, seen := PassOver(p, insize, cmp, key, s, nodes, infos, orig, seen);
      if nmerges <= 1 {
        r := Pass(s, insize, k);
        ListStart(p, r);
        list := p;
        if |s0| >= 2 { AllSeen(r, |s0|, insize, seen); }
        SameItems(s0, r, infos);
        DataAtEnd(infos, orig, seen, cmp, key);
        return;
      }
      s := Pass(s, insize, k);
      SeenNext(s, |s|, insize, seen);
      insize := insize * 2;
    }
  }

  lemma SameItems(s: seq<ListHead>, r: seq<ListHead>, infos: set<ListData>)
    requires multiset(r) == multiset(s) && infos == (set h | h in s :: h.info)
    ensures forall h :: h in s ==> h in r && h.info in infos
  {
    forall h | h in s ensures h in r { assert h in multiset(r); }
  }

  lemma DataAtStart(s: seq<ListHead>, infos: set<ListData>, orig: map<ListData, bv16>, cmp: Comparator,
                    key: ListData -> int)
    requires infos == (set h | h in s :: h.info) && orig == map d | d in infos :: d.data16
    requires forall h :: h in s ==> Tells(cmp, key, h.info, h.info.data16)
    ensures DataState(infos, orig, {}, cmp, key)
  {
  }

  lemma DataAtEnd(infos: set<ListData>, orig: map<ListData, bv16>, seen: set<ListData>, cmp: Comparator,
                  key: ListData -> int)
    requires DataState(infos, orig, seen, cmp, key)
    ensures infos <= orig.Keys && forall d :: d in infos ==> d.data16 in {orig[d], After(cmp, d, orig[d])}
    ensures seen <= infos && forall d :: d in seen ==> d.data16 == After(cmp, d, orig[d])
  {
  }

  lemma PassesUnfold(s: seq<ListHead>, k: nat, key: ListHead -> int)
    requires k > 0
    ensures Passes(s, k, key) == if |s| <= 2 * k then Pass(s, k, key) else Passes(Pass(s, k, key), 2 * k, key)
  {
  }

  lemma ListStart(p: ListHead?, s: seq<ListHead>)
    requires List(p, s) && s != []
    ensures p != null
  {
  }

  lemma AllWithin(s: seq<ListHead>, nodes: set<ListHead>, infos: set<ListData>)
    requires nodes == (set h | h in s) && infos == (set h | h in s :: h.info)
    ensures Within(s, nodes, infos)
  {
  }

  function Index(d: ListData): int { d.idx }

  lemma IndexIsKey(h: ListHead)
    ensures KeyOf(Index)(h) == h.info.idx
  {
    assert KeyOf(Index)(h) == Index(h.info);
  }

  /** The elements stand in the order of distinct indices. */
  ghost predicate IndexOrder(s: seq<ListHead>)
    reads s, set h | h in s :: h.info
  {
    forall i, j :: 0 <= i < j < |s| ==> s[i].info.idx < s[j].info.idx
  }

  /** Sorting by index, as the benchmark does to restore the list: whatever the order was, afterwards it is
      that of the indices, and the low byte of every data word is its high byte. */
  method SortByIndex(list0: ListHead, ghost s0: seq<ListHead>) returns (list: ListHead, ghost r: seq<ListHead>)
    requires |s0| >= 2 && List(list0, s0)
    modifies (set h | h in s0)`next, (set h | h in s0 :: h.info)`data16
    ensures List(list, r) && multiset(r) == multiset(s0)
    ensures forall i, j :: 0 <= i < j < |r| ==> r[i].info.idx <= r[j].info.idx
    ensures forall s: seq<ListHead> :: IndexOrder(s) && multiset(s) == multiset(s0) ==> r == s
    ensures forall h :: h in s0 ==> h.info.data16 & 0x00ff == h.info.data16 >> 8 == old(h.info.data16) >> 8
  {
    hide Regen, List, Passes, Class;
    list, r := MergeSort(list0, ByIndex, Index, s0);
    forall h | h in s0 ensures h.info.data16 & 0x00ff == h.info.data16 >> 8 == old(h.info.data16) >> 8 {
      RegenBytes(old(h.info.data16));
    }
    forall i, j | 0 <= i < j < |r| ensures r[i].info.idx <= r[j].info.idx {
      IndexIsKey(r[i]);
      IndexIsKey(r[j]);
      assert KeyOf(Index)(r[i]) <= KeyOf(Index)(r[j]);
    }
    forall s: seq<ListHead> | IndexOrder(s) && multiset(s) == multiset(s0) ensures r == s {
      IndexRestores(r, s);
    }
  }

  /** Sorting by calculated value, as the benchmark does to disturb the order: whatever the kernels compute,
      every item ends with bit 7 set and the low seven bits it had if bit 7 was set before, and those of its
      kernel's answer if not; the backup in the high byte is kept. The items are in the order of these seven
      bits, equal ones in the order before. */
  method SortByValue(list0: ListHead, value: ListData -> bv16, ghost s0: seq<ListHead>)
    returns (list: ListHead, ghost r: seq<ListHead>, ghost key: ListData -> int)
    requires |s0| >= 2 && List(list0, s0)
    modifies (set h | h in s0)`next, (set h | h in s0 :: h.info)`data16
    ensures List(list, r) && multiset(r) == multiset(s0)
    ensures forall h :: h in s0 ==> h.info.data16 & 0x0080 != 0 && h.info.data16 >> 8 == old(h.info.data16) >> 8
    ensures
      forall h :: h in s0 ==>
        h.info.data16 & 0x007f
          == if old(h.info.data16) & 0x0080 != 0 then old(h.info.data16) & 0x007f else value(h.info) & 0x007f
    ensures forall h :: h in s0 ==> key(h.info) == (h.info.data16 & 0x007f) as int
    ensures Sorted(r, KeyOf(key)) && forall v :: Class(r, KeyOf(key), v) == Class(s0, KeyOf(key), v)
  {
    hide Cached, Low7, Cache, List, Passes, Class, Sorted;
    ghost var orig := map d | d in (set h | h in s0 :: h.info) :: d.data16;
    key := (d: ListData) => if d in orig && Cached(orig[d]) then Low7(orig[d]) else Low7(value(d));
    list, r := MergeSort(list0, ByValue(value), key, s0);
    forall h | h in s0
      ensures h.info.data16 & 0x0080 != 0 && h.info.data16 >> 8 == old(h.info.data16) >> 8
      ensures h.info.data16 & 0x007f
        == if old(h.info.data16) & 0x0080 != 0 then old(h.info.data16) & 0x007f else value(h.info) & 0x007f
      ensures key(h.info) == (h.info.data16 & 0x007f) as int
    {
      CalculatedBits(h.info, orig[h.info], value);
      FlagBits(h.info.data16, 0);
    }
  }

  lemma IndexRestores(r: seq<ListHead>, s: seq<ListHead>)
    requires Sorted(r, KeyOf(Index)) && IndexOrder(s) && multiset(r) == multiset(s)
    ensures r == s
  {
    forall i, j | 0 <= i < j < |s| ensures KeyOf(Index)(s[i]) < KeyOf(Index)(s[j]) {
      IndexIsKey(s[i]);
      IndexIsKey(s[j]);
    }
    SortingRestores(r, s, KeyOf(Index));
  }
}
