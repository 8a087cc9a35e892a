/**
 * The greedy one-to-one matching every vector engine uses: each element of
 * the first list, in order, takes the first element of the second list not
 * yet taken that it accepts. The engines differ only in what "accepts"
 * means (an IoU threshold, equal rounded keys, a small move with the same
 * text), so the acceptance test is a parameter here.
 */
module Greedy {
  import opened Wrappers
  import opened Sorting

  /** The first index of `ys` from `from` on that is not in `used` and that `x` accepts. */
  function FirstFree<T>(x: T, ys: seq<T>, used: set<int>, ok: (T, T) -> bool, from: nat): (r: Option<nat>)
    ensures r.Some? ==> from <= r.value < |ys| && r.value !in used && ok(x, ys[r.value])
    ensures forall j :: from <= j < (if r.Some? then r.value else |ys|) ==> j in used || !ok(x, ys[j])
    decreases |ys| - from
  {
    if from >= |ys| then None
    else if from !in used && ok(x, ys[from]) then Some(from)
    else FirstFree(x, ys, used, ok, from + 1)
  }

  /** The partner chosen for each element of the first list, and the set of taken indices of the second. */
  datatype Match = Match(partner: seq<Option<nat>>, used: set<int>)

  /** The matching after the elements of `xs`, in order. */
  function GreedyMatch<T>(xs: seq<T>, ys: seq<T>, ok: (T, T) -> bool): (m: Match)
    ensures |m.partner| == |xs|
  {
    if xs == [] then Match([], {})
    else
      var m := GreedyMatch(xs[..|xs| - 1], ys, ok);
      var f := FirstFree(xs[|xs| - 1], ys, m.used, ok, 0);
      Match(m.partner + [f], if f.Some? then m.used + {f.value} else m.used)
  }

  /** The elements of `xs` left without a partner, in order. */
  function Lost<T>(xs: seq<T>, partner: seq<Option<nat>>): seq<T>
    requires |partner| == |xs|
  {
    if xs == [] then []
    else Lost(xs[..|xs| - 1], partner[..|xs| - 1]) + (if partner[|xs| - 1].None? then [xs[|xs| - 1]] else [])
  }

  /** The elements of `s` whose index is not in `drop`, in order. */
  function Keep<T>(s: seq<T>, drop: set<int>): seq<T> {
    if s == [] then []
    else Keep(s[..|s| - 1], drop) + (if |s| - 1 in drop then [] else [s[|s| - 1]])
  }

  /** How many elements found a partner. */
  function Matched(partner: seq<Option<nat>>): nat {
    if partner == [] then 0 else Matched(partner[..|partner| - 1]) + (if partner[|partner| - 1].Some? then 1 else 0)
  }

  /** A free accepted index with every earlier one taken or refused is the one `FirstFree` finds. */
  lemma FirstFreeAt<T>(x: T, ys: seq<T>, used: set<int>, ok: (T, T) -> bool, from: nat, t: nat)
    requires from <= t < |ys| && t !in used && ok(x, ys[t])
    requires forall j :: from <= j < t ==> j in used || !ok(x, ys[j])
    ensures FirstFree(x, ys, used, ok, from) == Some(t)
  {
    var r := FirstFree(x, ys, used, ok, from);
    assert r.Some?;
    assert !(r.value < t) && !(r.value > t);
  }

  /**
   * Every partner is an index of `ys` that its element accepts and that is
   * recorded as taken, and every taken index is an index of `ys`.
   */
  lemma {:induction false} GreedyBounds<T>(xs: seq<T>, ys: seq<T>, ok: (T, T) -> bool)
    ensures var m := GreedyMatch(xs, ys, ok);
            (forall k :: 0 <= k < |xs| && m.partner[k].Some? ==>
               m.partner[k].value < |ys| && ok(xs[k], ys[m.partner[k].value]) && m.partner[k].value in m.used)
            && (forall i :: i in m.used ==> 0 <= i < |ys|)
  {
    if xs != [] {
      GreedyBounds(xs[..|xs| - 1], ys, ok);
    }
  }

  /** No index of `ys` is taken twice, and the taken set has one index per matched element. */
  lemma {:induction false} GreedyInjective<T>(xs: seq<T>, ys: seq<T>, ok: (T, T) -> bool)
    ensures var m := GreedyMatch(xs, ys, ok);
            (forall k, l :: 0 <= k < l < |xs| && m.partner[k].Some? && m.partner[l].Some? ==>
               m.partner[k].value != m.partner[l].value)
            && |m.used| == Matched(m.partner)
  {
    if xs != [] {
      var init := xs[..|xs| - 1];
      GreedyInjective(init, ys, ok);
      GreedyBounds(init, ys, ok);
      var m0 := GreedyMatch(init, ys, ok);
      var m := GreedyMatch(xs, ys, ok);
      assert m.partner[..|xs| - 1] == m0.partner;
      var f := FirstFree(xs[|xs| - 1], ys, m0.used, ok, 0);
      if f.Some? {
        assert f.value !in m0.used;
        assert |m0.used + {f.value}| == |m0.used| + 1;
      }
    }
  }

  /** The taken set only grows as elements are processed. */
  lemma {:induction false} GreedyGrows<T>(xs: seq<T>, ys: seq<T>, ok: (T, T) -> bool, n: nat)
    requires n <= |xs|
    ensures GreedyMatch(xs[..n], ys, ok).used <= GreedyMatch(xs, ys, ok).used
    ensures GreedyMatch(xs[..n], ys, ok).partner == GreedyMatch(xs, ys, ok).partner[..n]
    decreases |xs| - n
  {
    if n < |xs| {
      GreedyGrows(xs, ys, ok, n + 1);
      assert xs[..n + 1][..n] == xs[..n];
    } else {
      assert xs[..n] == xs;
    }
  }

  /**
   * Greediness: an element left without a partner accepts no index of `ys`
   * that is still free at the end.
   */
  lemma GreedyMaximal<T>(xs: seq<T>, ys: seq<T>, ok: (T, T) -> bool, k: nat, i: nat)
    requires k < |xs| && i < |ys| && GreedyMatch(xs, ys, ok).partner[k].None? && ok(xs[k], ys[i])
    ensures i in GreedyMatch(xs, ys, ok).used
  {
    GreedyGrows(xs, ys, ok, k);
    GreedyGrows(xs, ys, ok, k + 1);
    var m0 := GreedyMatch(xs[..k], ys, ok);
    assert xs[..k + 1][..k] == xs[..k];
    assert xs[..k + 1][k] == xs[k];
    assert GreedyMatch(xs[..k + 1], ys, ok).partner[k] == FirstFree(xs[k], ys, m0.used, ok, 0);
  }

  /** Each element is either lost or matched. */
  lemma {:induction false} LostCount<T>(xs: seq<T>, partner: seq<Option<nat>>)
    requires |partner| == |xs|
    ensures |Lost(xs, partner)| + Matched(partner) == |xs|
  {
    if xs != [] {
      LostCount(xs[..|xs| - 1], partner[..|xs| - 1]);
    }
  }

  /** Dropping the indices in `drop` leaves `|s| - |drop|` elements, when `drop` holds indices of `s`. */
  lemma {:induction false} KeepLength<T>(s: seq<T>, drop: set<int>)
    requires forall i :: i in drop ==> 0 <= i < |s|
    ensures |Keep(s, drop)| == |s| - |drop|
  {
    if s != [] {
      var last := |s| - 1;
      var rest := drop - {last};
      KeepLength(s[..last], rest);
      KeepSame(s[..last], drop, rest);
      if last in drop {
        assert drop == rest + {last};
      } else {
        assert drop == rest;
      }
    } else {
      assert forall i :: i !in drop;
      assert drop == {};
    }
  }

  /** Only the indices below `|s|` matter to `Keep`. */
  lemma {:induction false} KeepSame<T>(s: seq<T>, d1: set<int>, d2: set<int>)
    requires forall i :: 0 <= i < |s| ==> (i in d1 <==> i in d2)
    ensures Keep(s, d1) == Keep(s, d2)
  {
    if s != [] {
      KeepSame(s[..|s| - 1], d1, d2);
    }
  }

  /** Nothing dropped, nothing lost. */
  lemma {:induction false} KeepNone<T>(s: seq<T>)
    ensures Keep(s, {}) == s
  {
    if s != [] {
      KeepNone(s[..|s| - 1]);
    }
  }

  /** What is kept is a selection of the elements, in their order. */
  lemma {:induction false} KeepMembers<T>(s: seq<T>, drop: set<int>)
    ensures forall x :: x in Keep(s, drop) ==> x in s
    ensures forall i :: 0 <= i < |s| && i !in drop ==> s[i] in Keep(s, drop)
    ensures SubseqOf(Keep(s, drop), s)
  {
    if s != [] {
      var n := |s| - 1;
      KeepMembers(s[..n], drop);
      assert forall i :: 0 <= i < n ==> s[i] == s[..n][i];
      assert s == s[..n] + [s[n]];
      var k := Keep(s[..n], drop);
      if n in drop {
        SubseqSkip(k, s[..n], s[n]);
        assert Keep(s, drop) == k;
      } else {
        SubseqSnoc(k, s[..n], s[n]);
        assert Keep(s, drop) == k + [s[n]];
      }
    }
  }

  /** The elements left without a partner are a subsequence of the list. */
  lemma {:induction false} LostSubseq<T>(xs: seq<T>, partner: seq<Option<nat>>)
    requires |partner| == |xs|
    ensures SubseqOf(Lost(xs, partner), xs)
  {
    if xs != [] {
      var n := |xs| - 1;
      LostSubseq(xs[..n], partner[..n]);
      assert xs == xs[..n] + [xs[n]];
      var l := Lost(xs[..n], partner[..n]);
      if partner[n].None? {
        SubseqSnoc(l, xs[..n], xs[n]);
        assert Lost(xs, partner) == l + [xs[n]];
      } else {
        SubseqSkip(l, xs[..n], xs[n]);
        assert Lost(xs, partner) == l;
      }
    }
  }

  /**
   * Every element is matched or lost, and every element of `ys` is taken or
   * kept, so both sides lose the same number: `|xs| - |lost| == |ys| - |kept|`.
   */
  lemma GreedyCounts<T>(xs: seq<T>, ys: seq<T>, ok: (T, T) -> bool)
    ensures var m := GreedyMatch(xs, ys, ok);
            |Lost(xs, m.partner)| + |m.used| == |xs| && |Keep(ys, m.used)| + |m.used| == |ys|
  {
    var m := GreedyMatch(xs, ys, ok);
    GreedyInjective(xs, ys, ok);
    GreedyBounds(xs, ys, ok);
    LostCount(xs, m.partner);
    KeepLength(ys, m.used);
  }

  /**
   * Matching a list against itself pairs every element with itself when
   * each element accepts itself: nothing is lost and nothing is kept.
   */
  lemma GreedyDiagonal<T>(xs: seq<T>, ok: (T, T) -> bool)
    requires forall k :: 0 <= k < |xs| ==> ok(xs[k], xs[k])
    ensures var m := GreedyMatch(xs, xs, ok);
            Lost(xs, m.partner) == [] && Keep(xs, m.used) == []
  {
    DiagonalPrefix(xs, xs, ok);
    var m := GreedyMatch(xs, xs, ok);
    LostAllMatched(xs, m.partner);
    KeepAllDropped(xs, m.used);
  }

  lemma {:induction false} DiagonalPrefix<T>(xs: seq<T>, ys: seq<T>, ok: (T, T) -> bool)
    requires |xs| <= |ys| && forall k :: 0 <= k < |xs| ==> xs[k] == ys[k] && ok(ys[k], ys[k])
    ensures var m := GreedyMatch(xs, ys, ok);
            (forall k :: 0 <= k < |xs| ==> m.partner[k] == Some(k))
            && (forall i :: i in m.used <==> 0 <= i < |xs|)
  {
    if xs != [] {
      var n := |xs| - 1;
      DiagonalPrefix(xs[..n], ys, ok);
      var m0 := GreedyMatch(xs[..n], ys, ok);
      FirstFreeAt(xs[n], ys, m0.used, ok, 0, n);
    }
  }

  lemma {:induction false} LostAllMatched<T>(xs: seq<T>, partner: seq<Option<nat>>)
    requires |partner| == |xs| && forall k :: 0 <= k < |xs| ==> partner[k].Some?
    ensures Lost(xs, partner) == []
  {
    if xs != [] {
      LostAllMatched(xs[..|xs| - 1], partner[..|xs| - 1]);
    }
  }

  lemma {:induction false} KeepAllDropped<T>(s: seq<T>, drop: set<int>)
    requires forall i :: 0 <= i < |s| ==> i in drop
    ensures Keep(s, drop) == []
  {
    if s != [] {
      KeepAllDropped(s[..|s| - 1], drop);
    }
  }

  /** A lost element is the element of some index left without a partner. */
  lemma {:induction false} LostIndex<T>(xs: seq<T>, partner: seq<Option<nat>>, x: T)
    requires |partner| == |xs| && x in Lost(xs, partner)
    ensures exists k :: 0 <= k < |xs| && partner[k].None? && xs[k] == x
  {
    var n := |xs| - 1;
    if x in Lost(xs[..n], partner[..n]) {
      LostIndex(xs[..n], partner[..n], x);
      var k :| 0 <= k < n && partner[..n][k].None? && xs[..n][k] == x;
      assert partner[k].None? && xs[k] == x;
    } else {
      assert partner[n].None? && xs[n] == x;
    }
  }

  /** A kept element is the element of some index outside `drop`. */
  lemma {:induction false} KeepIndex<T>(s: seq<T>, drop: set<int>, x: T)
    requires x in Keep(s, drop)
    ensures exists i :: 0 <= i < |s| && i !in drop && s[i] == x
  {
    var n := |s| - 1;
    if x in Keep(s[..n], drop) {
      KeepIndex(s[..n], drop, x);
      var i :| 0 <= i < n && i !in drop && s[..n][i] == x;
      assert s[i] == x;
    } else {
      assert n !in drop && s[n] == x;
    }
  }

  /**
   * No element left over on one side accepts an element left over on the
   * other: greedy matching leaves no acceptable pair behind.
   */
  lemma GreedyLeftovers<T>(xs: seq<T>, ys: seq<T>, ok: (T, T) -> bool)
    ensures var m := GreedyMatch(xs, ys, ok);
            forall x, y :: x in Lost(xs, m.partner) && y in Keep(ys, m.used) ==> !ok(x, y)
  {
    var m := GreedyMatch(xs, ys, ok);
    forall x, y | x in Lost(xs, m.partner) && y in Keep(ys, m.used)
      ensures !ok(x, y)
    {
      LostIndex(xs, m.partner, x);
      KeepIndex(ys, m.used, y);
      var k :| 0 <= k < |xs| && m.partner[k].None? && xs[k] == x;
      var i :| 0 <= i < |ys| && i !in m.used && ys[i] == y;
      if ok(x, y) {
        GreedyMaximal(xs, ys, ok, k, i);
      }
    }
  }

  /**
   * Cancelling pairs: both lists shrink by the same count, what is kept
   * comes from the inputs, and no kept element of one side accepts a kept
   * element of the other.
   */
  lemma CancelLaws<T>(xs: seq<T>, ys: seq<T>, ok: (T, T) -> bool)
    ensures var m := GreedyMatch(xs, ys, ok);
            var keptX, keptY := Lost(xs, m.partner), Keep(ys, m.used);
            |xs| - |keptX| == |ys| - |keptY|
            && (forall x :: x in keptX ==> x in xs) && (forall y :: y in keptY ==> y in ys)
            && SubseqOf(keptX, xs) && SubseqOf(keptY, ys)
            && (forall x, y :: x in keptX && y in keptY ==> !ok(x, y))
  {
    var m := GreedyMatch(xs, ys, ok);
    GreedyCounts(xs, ys, ok);
    LostSubseq(xs, m.partner);
    forall x | x in Lost(xs, m.partner)
      ensures x in xs
    {
      LostIndex(xs, m.partner, x);
    }
    KeepMembers(ys, m.used);
    GreedyLeftovers(xs, ys, ok);
  }

  /** Against an empty second list nothing matches and every element is lost. */
  lemma {:induction false} NothingToMatch<T>(xs: seq<T>, ok: (T, T) -> bool)
    ensures var m := GreedyMatch(xs, [], ok);
            m.used == {} && (forall k :: 0 <= k < |xs| ==> m.partner[k].None?) && Lost(xs, m.partner) == xs
  {
    if xs != [] {
      var n := |xs| - 1;
      NothingToMatch(xs[..n], ok);
      var m0 := GreedyMatch(xs[..n], [], ok);
      var m := GreedyMatch(xs, [], ok);
      assert m.partner[..n] == m0.partner;
      assert xs[..n] + [xs[n]] == xs;
    }
  }

  /** One element against one: both cancel when it is accepted, both stay otherwise. */
  lemma SingletonMatch<T>(x: T, y: T, ok: (T, T) -> bool)
    ensures var m := GreedyMatch([x], [y], ok);
            (ok(x, y) ==> Lost([x], m.partner) == [] && Keep([y], m.used) == [])
            && (!ok(x, y) ==> Lost([x], m.partner) == [x] && Keep([y], m.used) == [y])
  {
    assert [x][..0] == [] && [y][..0] == [];
    var m := GreedyMatch([x], [y], ok);
    assert m.partner[..0] == [];
  }

  /** The scan for a partner: the inner loop every engine writes out. */
  method FindFree<T>(x: T, ys: seq<T>, used: set<int>, ok: (T, T) -> bool) returns (found: Option<nat>)
    ensures found == FirstFree(x, ys, used, ok, 0)
  {
    var i := 0;
    while i < |ys|
      invariant 0 <= i <= |ys|
      invariant FirstFree(x, ys, used, ok, 0) == FirstFree(x, ys, used, ok, i)
    {
      if i in used {
        i := i + 1;
        continue;
      }
      if ok(x, ys[i]) {
        return Some(i);
      }
      i := i + 1;
    }
    return None;
  }

  /**
   * Drop matched pairs from both lists: the elements of `xs` that found no
   * partner, and the elements of `ys` that were not taken, each in order.
   */
  method CancelPairs<T>(xs: seq<T>, ys: seq<T>, ok: (T, T) -> bool) returns (keptX: seq<T>, keptY: seq<T>)
    ensures var m := GreedyMatch(xs, ys, ok);
            keptX == Lost(xs, m.partner) && keptY == Keep(ys, m.used)
  {
    keptX := [];
    var used: set<int> := {};
    ghost var partner: seq<Option<nat>> := [];
    var k := 0;
    while k < |xs|
      invariant 0 <= k <= |xs|
      invariant GreedyMatch(xs[..k], ys, ok) == Match(partner, used)
      invariant keptX == Lost(xs[..k], partner)
    {
      assert xs[..k + 1][..k] == xs[..k];
      var found := FindFree(xs[k], ys, used, ok);
      if found.None? {
        keptX := keptX + [xs[k]];
      } else {
        used := used + {found.value};
      }
      partner := partner + [found];
      k := k + 1;
    }
    assert xs[..k] == xs;
    keptY := Keep(ys, used);
  }
}
