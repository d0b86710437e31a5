/** From prefix codes to Kraft's inequality, and the optimality statement for unsorted weights. */
module HuffPrefix {
  import opened Arith
  import opened HuffOptimal

  /** No code word is a prefix of another. */
  ghost predicate PrefixFree(codes: seq<seq<bool>>) {
    forall i, j :: 0 <= i < |codes| && 0 <= j < |codes| && i != j ==> !(codes[i] <= codes[j])
  }

  function Lengths(codes: seq<seq<bool>>): seq<nat> {
    seq(|codes|, i requires 0 <= i < |codes| => |codes[i]|)
  }

  /** The code words that start with bit `b`, without it. */
  function Tails(codes: seq<seq<bool>>, b: bool): seq<seq<bool>> {
    if codes == [] then []
    else
      var r := Tails(codes[1..], b);
      if codes[0] != [] && codes[0][0] == b then [codes[0][1..]] + r else r
  }

  lemma {:induction false} TailsMembers(codes: seq<seq<bool>>, b: bool)
    ensures forall t :: t in Tails(codes, b) ==> [b] + t in codes
  {
    if codes != [] {
      TailsMembers(codes[1..], b);
      if codes[0] != [] && codes[0][0] == b {
        assert [b] + codes[0][1..] == codes[0];
      }
    }
  }

  lemma {:induction false} TailsPrefixFree(codes: seq<seq<bool>>, b: bool)
    requires PrefixFree(codes)
    ensures PrefixFree(Tails(codes, b))
  {
    if codes != [] {
      var rest := codes[1..];
      assert PrefixFree(rest) by {
        forall i, j | 0 <= i < |rest| && 0 <= j < |rest| && i != j ensures !(rest[i] <= rest[j]) {
          assert rest[i] == codes[i + 1] && rest[j] == codes[j + 1];
        }
      }
      TailsPrefixFree(rest, b);
      TailsMembers(rest, b);
      var r := Tails(rest, b);
      if codes[0] != [] && codes[0][0] == b {
        var h := codes[0][1..];
        assert [b] + h == codes[0];
        forall t | t in r ensures !(h <= t) && !(t <= h) {
          assert [b] + t in rest;
          var k :| 0 <= k < |rest| && rest[k] == [b] + t;
          assert codes[k + 1] == [b] + t;
          assert h <= t ==> [b] + h <= [b] + t;
          assert t <= h ==> [b] + t <= [b] + h;
        }
        ConsPrefixFree(h, r);
      }
    }
  }

  lemma ConsPrefixFree(h: seq<bool>, r: seq<seq<bool>>)
    requires PrefixFree(r) && forall t :: t in r ==> !(h <= t) && !(t <= h)
    ensures PrefixFree([h] + r)
  {
    var s := [h] + r;
    forall i, j | 0 <= i < |s| && 0 <= j < |s| && i != j ensures !(s[i] <= s[j]) {
      assert i > 0 ==> s[i] == r[i - 1] && s[i] in r;
      assert j > 0 ==> s[j] == r[j - 1] && s[j] in r;
    }
  }

  /** Slots of the two halves add up, when no code word is empty. */
  lemma {:induction false} TailsSlots(codes: seq<seq<bool>>, m: nat)
    requires m > 0 && Below(Lengths(codes), m) && [] !in codes
    ensures Below(Lengths(Tails(codes, false)), m - 1) && Below(Lengths(Tails(codes, true)), m - 1)
    ensures Sum(Slots(Lengths(codes), m))
         == Sum(Slots(Lengths(Tails(codes, false)), m - 1)) + Sum(Slots(Lengths(Tails(codes, true)), m - 1))
  {
    if codes != [] {
      var rest := codes[1..];
      assert Lengths(codes)[0] == |codes[0]| <= m;
      assert Lengths(codes)[1..] == Lengths(rest);
      assert Slots(Lengths(codes), m)[1..] == Slots(Lengths(rest), m);
      TailsSlots(rest, m);
      var b := codes[0][0];
      var h := codes[0][1..];
      var r := Tails(rest, b);
      assert Tails(codes, b) == [h] + r && Tails(codes, !b) == Tails(rest, !b);
      LengthsCons(h, r, m - 1);
      assert m - |codes[0]| == m - 1 - |h|;
    }
  }

  lemma LengthsCons(h: seq<bool>, r: seq<seq<bool>>, m: nat)
    requires Below(Lengths(r), m) && |h| <= m
    ensures Below(Lengths([h] + r), m)
    ensures Sum(Slots(Lengths([h] + r), m)) == Pow2(m - |h|) + Sum(Slots(Lengths(r), m))
  {
    var s := Lengths([h] + r);
    assert s == [|h|] + Lengths(r);
    assert Slots(s, m)[1..] == Slots(Lengths(r), m);
  }

  lemma EmptyCodeAlone(codes: seq<seq<bool>>, i: nat)
    requires PrefixFree(codes) && i < |codes| && codes[i] == []
    ensures |codes| == 1
  {
    var first, last := codes[0], codes[|codes| - 1];
    assert forall k: nat :: k < |codes| ==> codes[i] <= codes[k];
  }

  /** Kraft's inequality for prefix codes. */
  lemma {:induction false} PrefixKraft(codes: seq<seq<bool>>, m: nat)
    requires PrefixFree(codes) && Below(Lengths(codes), m)
    ensures Kraft(Lengths(codes), m)
    decreases m
  {
    assert codes != [] ==> Lengths(codes)[0] == |codes[0]| <= m;
    if [] in codes {
      var i :| 0 <= i < |codes| && codes[i] == [];
      EmptyCodeAlone(codes, i);
      var s := Slots(Lengths(codes), m);
      assert s == [Pow2(m)] && Sum(s[1..]) == 0;
    } else if codes != [] {
      TailsSlots(codes, m);
      TailsPrefixFree(codes, false);
      TailsPrefixFree(codes, true);
      PrefixKraft(Tails(codes, false), m - 1);
      PrefixKraft(Tails(codes, true), m - 1);
    }
  }

  // ---- weights in any order ----

  function Sorted(ws: seq<nat>): (r: seq<nat>)
    ensures Ascending(r) && multiset(r) == multiset(ws) && |r| == |ws|
  {
    if ws == [] then []
    else
      InsertAscending(Sorted(ws[1..]), ws[0]);
      assert ws == [ws[0]] + ws[1..];
      Insert(Sorted(ws[1..]), ws[0])
  }

  lemma SameLeast(s: seq<nat>, t: seq<nat>)
    requires s != [] && t != [] && Ascending(s) && Ascending(t) && multiset(s) == multiset(t)
    ensures s[0] == t[0]
  {
    assert s[0] in multiset(s) && t[0] in multiset(t);
    assert s[0] in t && t[0] in s;
  }

  lemma RestMultiset(s: seq<nat>)
    requires s != []
    ensures multiset(s[1..]) == multiset(s) - multiset{s[0]}
  {
    assert s == [s[0]] + s[1..];
  }

  lemma {:induction false} AscendingUnique(s: seq<nat>, t: seq<nat>)
    requires Ascending(s) && Ascending(t) && multiset(s) == multiset(t)
    ensures s == t
  {
    assert |multiset(s)| == |multiset(t)|;
    if s != [] {
      SameLeast(s, t);
      RestMultiset(s);
      RestMultiset(t);
      AscendingUnique(s[1..], t[1..]);
      assert s == [s[0]] + s[1..] && t == [t[0]] + t[1..];
    }
  }

  /** Sorting the weights carries the lengths along. */
  lemma {:induction false} SortPairs(ws: seq<nat>, ls: seq<nat>, m: nat) returns (ls': seq<nat>)
    requires |ws| == |ls| && Below(ls, m)
    ensures |ls'| == |ws| && Below(ls', m)
    ensures Cost(Sorted(ws), ls') == Cost(ws, ls)
    ensures Sum(Slots(ls', m)) == Sum(Slots(ls, m))
  {
    if ws == [] {
      ls' := ls;
    } else {
      hide Sum, Slots, Products, Sorted;
      var r := SortPairs(ws[1..], ls[1..], m);
      SortedCons(ws);
      var p := Place(Sorted(ws[1..]), ws[0]);
      ls' := InsertAt(r, p, ls[0]);
      CostInsert(Sorted(ws[1..]), r, p, ws[0], ls[0]);
      SlotsInsert(r, m, p, ls[0]);
      CostInsert(ws[1..], ls[1..], 0, ws[0], ls[0]);
      SlotsInsert(ls[1..], m, 0, ls[0]);
      assert InsertAt(ws[1..], 0, ws[0]) == ws && InsertAt(ls[1..], 0, ls[0]) == ls;
    }
  }

  lemma SortedCons(ws: seq<nat>)
    requires ws != []
    ensures Sorted(ws) == Insert(Sorted(ws[1..]), ws[0])
  {
  }

  /** No prefix code for these weights is shorter than the greedy cost. */
  lemma NoPrefixCodeIsShorter(ws: seq<nat>, codes: seq<seq<bool>>)
    requires |ws| == |codes| && PrefixFree(codes)
    ensures HuffCost(Sorted(ws)) <= Cost(ws, Lengths(codes))
  {
    if ws != [] {
      var ls := Lengths(codes);
      var m := MaxLen(ls);
      PrefixKraft(codes, m);
      var ls' := SortPairs(ws, ls, m);
      GreedyIsOptimal(Sorted(ws), ls', m);
    }
  }
}
