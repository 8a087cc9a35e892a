/**
 * Python's `sorted` / `list.sort` with a key: a stable insertion sort under
 * a total preorder `le` on the keys.
 */
module Sorting {

  ghost predicate TotalPreorder<T(!new)>(le: (T, T) -> bool) {
    (forall a, b :: le(a, b) || le(b, a))
    && (forall a, b, c :: le(a, b) && le(b, c) ==> le(a, c))
  }

  predicate Sorted<T>(s: seq<T>, le: (T, T) -> bool) {
    forall i, j :: 0 <= i < j < |s| ==> le(s[i], s[j])
  }

  /** The entries of `s` that `keep` accepts, in their order. */
  function Filter<T>(s: seq<T>, keep: T -> bool): (r: seq<T>)
    ensures |r| <= |s|
  {
    if s == [] then [] else Filter(s[..|s| - 1], keep) + (if keep(s[|s| - 1]) then [s[|s| - 1]] else [])
  }

  /** The filter holds exactly the accepted entries. */
  lemma {:induction false} FilterIn<T(!new)>(s: seq<T>, keep: T -> bool)
    ensures forall x :: x in Filter(s, keep) <==> x in s && keep(x)
  {
    if s != [] {
      var n := |s| - 1;
      FilterIn(s[..n], keep);
      assert s == s[..n] + [s[n]];
    }
  }

  /** Filtering one more entry appends it when it is accepted. */
  lemma FilterSnoc<T>(s: seq<T>, i: nat, keep: T -> bool)
    requires i < |s|
    ensures Filter(s[..i + 1], keep) == Filter(s[..i], keep) + (if keep(s[i]) then [s[i]] else [])
  {
    assert s[..i + 1][..i] == s[..i];
  }

  /** When every entry is accepted, nothing is dropped. */
  lemma {:induction false} FilterAll<T>(s: seq<T>, keep: T -> bool)
    requires forall k :: 0 <= k < |s| ==> keep(s[k])
    ensures Filter(s, keep) == s
  {
    if s != [] {
      var n := |s| - 1;
      var p := s[..n];
      assert forall k :: 0 <= k < |p| ==> keep(p[k]) by {
        forall k | 0 <= k < |p|
          ensures keep(p[k])
        {
          assert p[k] == s[k];
        }
      }
      FilterAll(p, keep);
      assert Filter(s, keep) == p + [s[n]];
      assert p + [s[n]] == s;
    }
  }

  /** A filter of a sorted list stays sorted. */
  lemma {:induction false} FilterSorted<T(!new)>(s: seq<T>, keep: T -> bool, le: (T, T) -> bool)
    requires Sorted(s, le)
    ensures Sorted(Filter(s, keep), le)
  {
    if s != [] {
      var p := s[..|s| - 1];
      assert Sorted(p, le) by {
        forall i, j | 0 <= i < j < |p| ensures le(p[i], p[j]) {
          assert p[i] == s[i] && p[j] == s[j];
        }
      }
      FilterSorted(p, keep, le);
      var q := Filter(p, keep);
      FilterIn(p, keep);
      var last := s[|s| - 1];
      if keep(last) {
        forall i, j | 0 <= i < j < |q + [last]| ensures le((q + [last])[i], (q + [last])[j]) {
          assert (q + [last])[i] == q[i];
          if j == |q| {
            assert q[i] in q;
            var k :| 0 <= k < |p| && p[k] == q[i];
            assert s[k] == q[i];
          } else {
            assert (q + [last])[j] == q[j];
          }
        }
      } else {
        assert q + [] == q;
      }
    }
  }

  /** Insert `e` after every element that does not come strictly after it. */
  function Insert<T>(e: T, t: seq<T>, le: (T, T) -> bool): (r: seq<T>)
    ensures multiset(r) == multiset(t) + multiset{e} && |r| == |t| + 1
  {
    if t == [] then [e]
    else if !le(t[0], e) then [e] + t
    else
      assert t == [t[0]] + t[1..];
      [t[0]] + Insert(e, t[1..], le)
  }

  /** Elements are inserted in their input order, so equal keys keep it. */
  function SortBy<T>(s: seq<T>, le: (T, T) -> bool): (r: seq<T>)
    ensures multiset(r) == multiset(s) && |r| == |s|
  {
    if s == [] then []
    else
      assert s == s[..|s| - 1] + [s[|s| - 1]];
      Insert(s[|s| - 1], SortBy(s[..|s| - 1], le), le)
  }

  lemma {:induction false} InsertSorted<T(!new)>(e: T, t: seq<T>, le: (T, T) -> bool)
    requires TotalPreorder(le) && Sorted(t, le)
    ensures Sorted(Insert(e, t, le), le)
  {
    if t != [] && le(t[0], e) {
      InsertSorted(e, t[1..], le);
      var r := Insert(e, t[1..], le);
      HeadBelow(e, t, r, le);
      var out := [t[0]] + r;
      forall i, j | 0 <= i < j < |out| ensures le(out[i], out[j]) {
        assert out[j] == r[j - 1];
        if i > 0 {
          assert out[i] == r[i - 1];
        }
      }
    }
  }

  /** Every element inserted after the head of a sorted list comes after that head. */
  lemma HeadBelow<T>(e: T, t: seq<T>, r: seq<T>, le: (T, T) -> bool)
    requires t != [] && le(t[0], e) && Sorted(t, le)
    requires multiset(r) == multiset(t[1..]) + multiset{e}
    ensures forall k :: 0 <= k < |r| ==> le(t[0], r[k])
  {
    forall k | 0 <= k < |r| ensures le(t[0], r[k]) {
      var x := r[k];
      assert x in multiset(r);
      if x != e {
        assert x in multiset(t[1..]);
        var m :| 0 <= m < |t[1..]| && t[1..][m] == x;
        assert t[m + 1] == x;
      }
    }
  }

  /** `SortBy` sorts: with the multiset clause of its contract, its result is a sorted permutation. */
  lemma {:induction false} SortBySorted<T(!new)>(s: seq<T>, le: (T, T) -> bool)
    requires TotalPreorder(le)
    ensures Sorted(SortBy(s, le), le)
  {
    if s != [] {
      SortBySorted(s[..|s| - 1], le);
      InsertSorted(s[|s| - 1], SortBy(s[..|s| - 1], le), le);
    }
  }

  /** Python's `str` ordering: code point by code point, a proper prefix first. */
  predicate StrLe(a: string, b: string)
    decreases |a|
  {
    a == [] || (b != [] && (a[0] < b[0] || (a[0] == b[0] && StrLe(a[1..], b[1..]))))
  }

  lemma {:induction false} StrLeTotal(a: string, b: string)
    ensures StrLe(a, b) || StrLe(b, a)
    decreases |a|
  {
    if a != [] && b != [] && a[0] == b[0] {
      StrLeTotal(a[1..], b[1..]);
    }
  }

  lemma {:induction false} StrLeTrans(a: string, b: string, c: string)
    requires StrLe(a, b) && StrLe(b, c)
    ensures StrLe(a, c)
    decreases |a|
  {
    if a != [] && b[0] == a[0] && c[0] == b[0] {
      StrLeTrans(a[1..], b[1..], c[1..]);
    }
  }

  lemma {:induction false} StrLeAntisym(a: string, b: string)
    requires StrLe(a, b) && StrLe(b, a)
    ensures a == b
    decreases |a|
  {
    if a != [] {
      StrLeAntisym(a[1..], b[1..]);
      assert a == [a[0]] + a[1..] && b == [b[0]] + b[1..];
    }
  }

  /** An element that comes after everything goes at the end. */
  lemma {:induction false} InsertLast<T>(e: T, t: seq<T>, le: (T, T) -> bool)
    requires forall x :: x in t ==> le(x, e)
    ensures Insert(e, t, le) == t + [e]
  {
    if t != [] {
      assert t == [t[0]] + t[1..];
      InsertLast(e, t[1..], le);
    }
  }

  /** Sorting what is already sorted changes nothing. */
  lemma {:induction false} SortBySame<T>(s: seq<T>, le: (T, T) -> bool)
    requires Sorted(s, le)
    ensures SortBy(s, le) == s
  {
    if s != [] {
      var p := s[..|s| - 1];
      assert Sorted(p, le) by {
        forall i, j | 0 <= i < j < |p| ensures le(p[i], p[j]) {
          assert p[i] == s[i] && p[j] == s[j];
        }
      }
      SortBySame(p, le);
      forall x | x in p ensures le(x, s[|s| - 1]) {
        var k :| 0 <= k < |p| && p[k] == x;
        assert s[k] == x;
      }
      InsertLast(s[|s| - 1], p, le);
      assert p + [s[|s| - 1]] == s;
    }
  }

  // ---------------------------------------------------------------- subsequences

  /** `a` is `b` with some elements left out, the rest in their order. */
  predicate SubseqOf<T(==)>(a: seq<T>, b: seq<T>) {
    if b == [] then a == []
    else (a != [] && a[|a| - 1] == b[|b| - 1] && SubseqOf(a[..|a| - 1], b[..|b| - 1])) || SubseqOf(a, b[..|b| - 1])
  }

  /** Keeping one more element at the end of both keeps the selection. */
  lemma SubseqSnoc<T>(a: seq<T>, b: seq<T>, x: T)
    requires SubseqOf(a, b)
    ensures SubseqOf(a + [x], b + [x])
  {
    assert (a + [x])[..|a|] == a && (b + [x])[..|b|] == b;
  }

  /** Leaving out one more element at the end keeps the selection. */
  lemma SubseqSkip<T>(a: seq<T>, b: seq<T>, x: T)
    requires SubseqOf(a, b)
    ensures SubseqOf(a, b + [x])
  {
    assert (b + [x])[..|b|] == b;
  }

  /** What a filter keeps is a subsequence of its input. */
  lemma {:induction false} FilterSubseq<T>(s: seq<T>, keep: T -> bool)
    ensures SubseqOf(Filter(s, keep), s)
  {
    if s != [] {
      var n := |s| - 1;
      var f := Filter(s[..n], keep);
      FilterSubseq(s[..n], keep);
      assert s == s[..n] + [s[n]];
      if keep(s[n]) {
        SubseqSnoc(f, s[..n], s[n]);
        assert Filter(s, keep) == f + [s[n]];
      } else {
        SubseqSkip(f, s[..n], s[n]);
        assert Filter(s, keep) == f;
      }
    }
  }
}
