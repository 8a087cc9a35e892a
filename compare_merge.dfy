/**
 * Change-type classification, box IoU and the greedy box merge of the
 * raster comparison (src/compareset/compare.py).
 */
module CompareMerge {
  import opened Geometry
  import opened Sorting

  const Added: string := "added"
  const Removed: string := "removed"
  const Modified: string := "modified"

  predicate IsChangeType(t: string) { t == Added || t == Removed || t == Modified }

  /** The share of a region above which the added or removed mask counts as active. */
  const Active: real := 0.05

  /** `_classify_region`. */
  function ClassifyRegion(addedScore: real, removedScore: real): (t: string)
    ensures IsChangeType(t)
    ensures t == Added <==> addedScore >= Active && removedScore < Active
    ensures t == Removed <==> removedScore >= Active && addedScore < Active
    ensures t == Modified <==> (addedScore >= Active <==> removedScore >= Active)
  {
    var addedActive := addedScore >= Active;
    var removedActive := removedScore >= Active;
    if addedActive && !removedActive then Added
    else if removedActive && !addedActive then Removed
    else Modified
  }

  function SwapType(t: string): string {
    if t == Added then Removed else if t == Removed then Added else t
  }

  /** Exchanging the two scores exchanges "added" and "removed". */
  lemma ClassifySwap(addedScore: real, removedScore: real)
    ensures ClassifyRegion(removedScore, addedScore) == SwapType(ClassifyRegion(addedScore, removedScore))
  {
  }

  /** `_resolve_change_type`: a clear balance overrides the classification. */
  function ResolveChangeType(diffScore: real, defaultType: string): (t: string)
    ensures diffScore > Active ==> t == Added
    ensures diffScore < -Active ==> t == Removed
    ensures -Active <= diffScore <= Active ==> t == defaultType
  {
    if diffScore > Active then Added
    else if diffScore < -Active then Removed
    else defaultType
  }

  /** Resolution keeps a valid change type valid and mirrors under negation and swapping. */
  lemma ResolveLaws(diffScore: real, t: string)
    ensures IsChangeType(t) ==> IsChangeType(ResolveChangeType(diffScore, t))
    ensures ResolveChangeType(-diffScore, SwapType(t)) == SwapType(ResolveChangeType(diffScore, t))
  {
  }

  /** `_merge_change_type`: equal types stay, anything mixed is "modified". */
  function MergeChangeType(a: string, b: string): (t: string)
    ensures a == b ==> t == a
    ensures a != b ==> t == Modified
  {
    if a == b then a
    else if a == Modified || b == Modified then Modified
    else Modified
  }

  /** Merging types is commutative, associative and absorbed by "modified". */
  lemma MergeChangeTypeLaws(a: string, b: string, c: string)
    ensures MergeChangeType(a, b) == MergeChangeType(b, a)
    ensures MergeChangeType(MergeChangeType(a, b), c) == MergeChangeType(a, MergeChangeType(b, c))
    ensures MergeChangeType(Modified, a) == Modified
    ensures IsChangeType(a) && IsChangeType(b) ==> IsChangeType(MergeChangeType(a, b))
  {
  }

  /** `_iou` on integer pixel boxes. */
  function Iou(a: Box, b: Box): (r: real)
    ensures 0.0 <= r <= 1.0
    ensures r > 0.0 <==> InterArea(a, b) > 0
  {
    var inter := InterArea(a, b);
    InterBound(a, b);
    if inter <= 0 then 0.0
    else
      var denom := a.Area() + b.Area() - inter;
      if denom <= 0 then 0.0
      else
        RatioUnit(inter as real, denom as real);
        inter as real / denom as real
  }

  lemma IouSym(a: Box, b: Box)
    ensures Iou(a, b) == Iou(b, a)
  {
    InterSym(a, b);
  }

  /** A box of positive area overlaps itself completely; disjoint boxes do not overlap. */
  lemma IouSelf(a: Box)
    requires a.Width() > 0 && a.Height() > 0
    ensures Iou(a, a) == 1.0
  {
    assert InterW(a, a) == a.Width() && InterH(a, a) == a.Height();
    MulPos(a.Width(), a.Height());
  }

  lemma IouDisjoint(a: Box, b: Box)
    requires a.x1 <= b.x0 || b.x1 <= a.x0 || a.y1 <= b.y0 || b.y1 <= a.y0
    ensures Iou(a, b) == 0.0
  {
  }

  /** One enriched candidate: padded box, mask score, added-minus-removed balance, change type. */
  datatype Entry = Entry(box: Box, score: real, diff: real, kind: string)

  /** One absorption step of the merge loop. */
  function Absorb(acc: Entry, o: Entry): Entry {
    Entry(Hull(acc.box, o.box), MaxR(acc.score, o.score), acc.diff + o.diff, MergeChangeType(acc.kind, o.kind))
  }

  /** Absorb `s` into `acc` from left to right. */
  function Fold(acc: Entry, s: seq<Entry>): Entry {
    if s == [] then acc else Absorb(Fold(acc, s[..|s| - 1]), s[|s| - 1])
  }

  function SumDiff(s: seq<Entry>): real {
    if s == [] then 0.0 else SumDiff(s[..|s| - 1]) + s[|s| - 1].diff
  }

  /** The folded box is the least box holding the start and every absorbed box. */
  lemma {:induction false} FoldBox(acc: Entry, s: seq<Entry>)
    ensures acc.box.Within(Fold(acc, s).box)
    ensures forall k :: 0 <= k < |s| ==> s[k].box.Within(Fold(acc, s).box)
  {
    if s != [] {
      var init := s[..|s| - 1];
      FoldBox(acc, init);
      var f, r := Fold(acc, init), Fold(acc, s);
      assert r.box == Hull(f.box, s[|s| - 1].box);
      forall k | 0 <= k < |s|
        ensures s[k].box.Within(r.box)
      {
        if k < |init| {
          assert init[k] == s[k];
          assert s[k].box.Within(f.box);
        }
      }
    }
  }

  /** No smaller box holds them all. */
  lemma {:induction false} FoldBoxLeast(acc: Entry, s: seq<Entry>, o: Box)
    requires acc.box.Within(o) && forall k :: 0 <= k < |s| ==> s[k].box.Within(o)
    ensures Fold(acc, s).box.Within(o)
  {
    if s != [] {
      var init := s[..|s| - 1];
      assert forall k :: 0 <= k < |init| ==> init[k].box.Within(o) by {
        assert forall k :: 0 <= k < |init| ==> init[k] == s[k];
      }
      FoldBoxLeast(acc, init, o);
      assert s[|s| - 1].box.Within(o);
    }
  }

  /** The folded score is the largest score among the start and the absorbed entries. */
  lemma {:induction false} FoldScore(acc: Entry, s: seq<Entry>)
    ensures Fold(acc, s).score >= acc.score
    ensures forall k :: 0 <= k < |s| ==> Fold(acc, s).score >= s[k].score
    ensures Fold(acc, s).score == acc.score || exists k :: 0 <= k < |s| && Fold(acc, s).score == s[k].score
  {
    if s != [] {
      var init := s[..|s| - 1];
      FoldScore(acc, init);
      assert forall k :: 0 <= k < |init| ==> init[k] == s[k];
    }
  }

  /** The folded balance is the sum of all balances. */
  lemma {:induction false} FoldDiff(acc: Entry, s: seq<Entry>)
    ensures Fold(acc, s).diff == acc.diff + SumDiff(s)
  {
    if s != [] {
      FoldDiff(acc, s[..|s| - 1]);
    }
  }

  /** The folded type is the shared type when all agree and "modified" otherwise. */
  lemma {:induction false} FoldKind(acc: Entry, s: seq<Entry>)
    ensures (forall k :: 0 <= k < |s| ==> s[k].kind == acc.kind) ==> Fold(acc, s).kind == acc.kind
    ensures (exists k :: 0 <= k < |s| && s[k].kind != acc.kind) ==> Fold(acc, s).kind == Modified
  {
    if s != [] {
      var init := s[..|s| - 1];
      FoldKind(acc, init);
      assert forall k :: 0 <= k < |init| ==> init[k] == s[k];
      if exists k :: 0 <= k < |s| && s[k].kind != acc.kind {
        var k :| 0 <= k < |s| && s[k].kind != acc.kind;
        if k < |init| {
          assert init[k].kind != acc.kind;
        }
      }
    }
  }

  /** The entries of `s` that overlap `base` by at least `thr`, in order. */
  function Taken(base: Entry, s: seq<Entry>, thr: real): (r: seq<Entry>)
    ensures |r| <= |s|
  {
    if s == [] then []
    else Taken(base, s[..|s| - 1], thr) + (if Iou(base.box, s[|s| - 1].box) >= thr then [s[|s| - 1]] else [])
  }

  /** The entries of `s` left in `remaining` after `base` absorbed its overlaps. */
  function Rest(base: Entry, s: seq<Entry>, thr: real): (r: seq<Entry>)
    ensures |r| <= |s|
  {
    if s == [] then []
    else Rest(base, s[..|s| - 1], thr) + (if Iou(base.box, s[|s| - 1].box) >= thr then [] else [s[|s| - 1]])
  }

  /** Every entry goes to exactly one side, and each side keeps to its test. */
  lemma {:induction false} Partition(base: Entry, s: seq<Entry>, thr: real)
    ensures multiset(Taken(base, s, thr)) + multiset(Rest(base, s, thr)) == multiset(s)
    ensures forall e :: e in Taken(base, s, thr) ==> Iou(base.box, e.box) >= thr
    ensures forall e :: e in Rest(base, s, thr) ==> Iou(base.box, e.box) < thr
  {
    PartitionSplit(base, s, thr);
    PartitionTests(base, s, thr);
  }

  /** Both sides hold only entries of `s`. */
  lemma {:induction false} PartitionMembers(base: Entry, s: seq<Entry>, thr: real)
    ensures forall e :: e in Taken(base, s, thr) ==> e in s
    ensures forall e :: e in Rest(base, s, thr) ==> e in s
  {
    if s != [] {
      var init := s[..|s| - 1];
      PartitionMembers(base, init, thr);
      assert s == init + [s[|s| - 1]];
    }
  }

  lemma {:induction false} PartitionSplit(base: Entry, s: seq<Entry>, thr: real)
    ensures multiset(Taken(base, s, thr)) + multiset(Rest(base, s, thr)) == multiset(s)
  {
    if s != [] {
      PartitionSplit(base, s[..|s| - 1], thr);
      assert s == s[..|s| - 1] + [s[|s| - 1]];
    }
  }

  lemma {:induction false} PartitionTests(base: Entry, s: seq<Entry>, thr: real)
    ensures forall e :: e in Taken(base, s, thr) ==> Iou(base.box, e.box) >= thr
    ensures forall e :: e in Rest(base, s, thr) ==> Iou(base.box, e.box) < thr
  {
    if s != [] {
      PartitionTests(base, s[..|s| - 1], thr);
    }
  }

  /** The merge loop over the sorted list: each pass folds the head's overlaps into it. */
  function MergeAll(r: seq<Entry>, thr: real): (m: seq<Entry>)
    ensures |m| <= |r|
    decreases |r|
  {
    if r == [] then []
    else [Fold(r[0], Taken(r[0], r[1..], thr))] + MergeAll(Rest(r[0], r[1..], thr), thr)
  }

  /** The entries each merged entry was built from: the head first, then what it absorbed. */
  function Groups(r: seq<Entry>, thr: real): (g: seq<seq<Entry>>)
    decreases |r|
  {
    if r == [] then []
    else [[r[0]] + Taken(r[0], r[1..], thr)] + Groups(Rest(r[0], r[1..], thr), thr)
  }

  function Concat(g: seq<seq<Entry>>): seq<Entry> {
    if g == [] then [] else g[0] + Concat(g[1..])
  }

  /** There is one group per merged entry, and the groups partition the input. */
  lemma {:induction false} MergeGroupsPartition(r: seq<Entry>, thr: real)
    ensures |Groups(r, thr)| == |MergeAll(r, thr)|
    ensures multiset(Concat(Groups(r, thr))) == multiset(r)
    decreases |r|
  {
    if r != [] {
      var rest := Rest(r[0], r[1..], thr);
      var taken := Taken(r[0], r[1..], thr);
      MergeGroupsPartition(rest, thr);
      PartitionSplit(r[0], r[1..], thr);
      var g := Groups(r, thr);
      assert g == [[r[0]] + taken] + Groups(rest, thr);
      assert g[1..] == Groups(rest, thr);
      assert Concat(g) == [r[0]] + taken + Concat(Groups(rest, thr));
      assert r == [r[0]] + r[1..];
    }
  }

  /** Every merged entry is its group folded into the group's head. */
  lemma {:induction false} MergeGroupsFold(r: seq<Entry>, thr: real)
    ensures |Groups(r, thr)| == |MergeAll(r, thr)|
    ensures forall j :: 0 <= j < |Groups(r, thr)| ==>
              Groups(r, thr)[j] != [] && MergeAll(r, thr)[j] == Fold(Groups(r, thr)[j][0], Groups(r, thr)[j][1..])
    decreases |r|
  {
    if r != [] {
      var rest := Rest(r[0], r[1..], thr);
      var taken := Taken(r[0], r[1..], thr);
      MergeGroupsFold(rest, thr);
      var g, m := Groups(r, thr), MergeAll(r, thr);
      assert g == [[r[0]] + taken] + Groups(rest, thr);
      assert m == [Fold(r[0], taken)] + MergeAll(rest, thr);
      assert g[0][1..] == taken;
    }
  }

  /** Every member of the group overlaps its head by at least `thr`. */
  predicate HeadOverlaps(group: seq<Entry>, thr: real) {
    forall k :: 1 <= k < |group| ==> Iou(group[0].box, group[k].box) >= thr
  }

  lemma FirstGroupOverlaps(r: seq<Entry>, thr: real)
    requires r != []
    ensures HeadOverlaps([r[0]] + Taken(r[0], r[1..], thr), thr)
  {
    var taken := Taken(r[0], r[1..], thr);
    PartitionTests(r[0], r[1..], thr);
    forall k | 1 <= k < |[r[0]] + taken|
      ensures Iou(r[0].box, ([r[0]] + taken)[k].box) >= thr
    {
      assert ([r[0]] + taken)[k] == taken[k - 1];
      assert taken[k - 1] in taken;
    }
  }

  /** Every member of a group overlaps the group's head by at least the threshold. */
  lemma {:induction false} MergeGroupsOverlap(r: seq<Entry>, thr: real)
    ensures forall j :: 0 <= j < |Groups(r, thr)| ==> HeadOverlaps(Groups(r, thr)[j], thr)
    decreases |r|
  {
    if r != [] {
      var rest := Rest(r[0], r[1..], thr);
      MergeGroupsOverlap(rest, thr);
      FirstGroupOverlaps(r, thr);
      assert Groups(r, thr) == [[r[0]] + Taken(r[0], r[1..], thr)] + Groups(rest, thr);
    }
  }

  /** Every entry lies inside some merged entry, whatever the threshold. */
  lemma {:induction false} MergeCoversOne(r: seq<Entry>, thr: real, e: Entry)
    requires e in r
    ensures exists j :: 0 <= j < |MergeAll(r, thr)| && e.box.Within(MergeAll(r, thr)[j].box)
    decreases |r|
  {
    var m := MergeAll(r, thr);
    var taken := Taken(r[0], r[1..], thr);
    var rest := Rest(r[0], r[1..], thr);
    assert m == [Fold(r[0], taken)] + MergeAll(rest, thr);
    if e == r[0] || e in taken {
      FoldCovers(r[0], taken, e);
      assert m[0] == Fold(r[0], taken);
    } else {
      RestHolds(r, thr, e);
      MergeCoversOne(rest, thr, e);
      var j :| 0 <= j < |MergeAll(rest, thr)| && e.box.Within(MergeAll(rest, thr)[j].box);
      assert m[j + 1] == MergeAll(rest, thr)[j];
    }
  }

  /** The head and every entry folded into it lie inside the folded box. */
  lemma FoldCovers(acc: Entry, s: seq<Entry>, e: Entry)
    requires e == acc || e in s
    ensures e.box.Within(Fold(acc, s).box)
  {
    FoldBox(acc, s);
    if e != acc {
      var k :| 0 <= k < |s| && s[k] == e;
    }
  }

  /** An entry after the head that was not taken into the first group is left for the rest. */
  lemma RestHolds(r: seq<Entry>, thr: real, e: Entry)
    requires e in r && r != [] && e != r[0] && e !in Taken(r[0], r[1..], thr)
    ensures e in Rest(r[0], r[1..], thr)
  {
    assert e in r[1..] by { assert r == [r[0]] + r[1..]; }
    TakenOrRest(r[0], r[1..], thr, e);
  }

  /** Every entry of `s` lands on one of the two sides. */
  lemma {:induction false} TakenOrRest(base: Entry, s: seq<Entry>, thr: real, e: Entry)
    requires e in s
    ensures e in Taken(base, s, thr) || e in Rest(base, s, thr)
  {
    var init := s[..|s| - 1];
    if e != s[|s| - 1] {
      assert s == init + [s[|s| - 1]];
      TakenOrRest(base, init, thr, e);
    }
  }

  /** A threshold above 1 can never be met, so nothing merges. */
  lemma {:induction false} MergeAboveOne(r: seq<Entry>, thr: real)
    requires thr > 1.0
    ensures MergeAll(r, thr) == r
    decreases |r|
  {
    if r != [] {
      NoneTaken(r[0], r[1..], thr);
      MergeAboveOne(r[1..], thr);
      assert MergeAll(r, thr) == [Fold(r[0], [])] + MergeAll(r[1..], thr);
      assert r == [r[0]] + r[1..];
    }
  }

  lemma {:induction false} NoneTaken(base: Entry, s: seq<Entry>, thr: real)
    requires thr > 1.0
    ensures Taken(base, s, thr) == [] && Rest(base, s, thr) == s
  {
    if s != [] {
      NoneTaken(base, s[..|s| - 1], thr);
      assert s == s[..|s| - 1] + [s[|s| - 1]];
    }
  }

  /** The sort key `(x0, y0)`. */
  predicate CornerLe(a: Entry, b: Entry) {
    a.box.x0 < b.box.x0 || (a.box.x0 == b.box.x0 && a.box.y0 <= b.box.y0)
  }

  lemma CornerPreorder()
    ensures TotalPreorder(CornerLe)
  {
  }

  /** `sorted(boxes, key=lambda item: (item[0], item[1]))`. */
  function SortByCorner(s: seq<Entry>): (r: seq<Entry>)
    ensures multiset(r) == multiset(s) && |r| == |s|
    ensures Sorted(r, CornerLe)
  {
    CornerPreorder();
    SortBySorted(s, CornerLe);
    SortBy(s, CornerLe)
  }

  /** The merge as the source states it: unchanged for a non-positive threshold or at most one box. */
  function MergeBoxesSpec(boxes: seq<Entry>, mergeIou: real): seq<Entry> {
    if mergeIou <= 0.0 || |boxes| <= 1 then boxes else MergeAll(SortByCorner(boxes), mergeIou)
  }

  /** One pass of the outer loop: pop the head, fold in its overlaps, keep the others. */
  method MergePass(remaining: seq<Entry>, mergeIou: real) returns (acc: Entry, kept: seq<Entry>)
    requires remaining != []
    ensures acc == Fold(remaining[0], Taken(remaining[0], remaining[1..], mergeIou))
    ensures kept == Rest(remaining[0], remaining[1..], mergeIou)
  {
    var base := remaining[0];
    var rest := remaining[1..];
    acc := base;
    kept := [];
    var i := 0;
    while i < |rest|
      invariant 0 <= i <= |rest|
      invariant acc == Fold(base, Taken(base, rest[..i], mergeIou))
      invariant kept == Rest(base, rest[..i], mergeIou)
    {
      assert rest[..i + 1][..i] == rest[..i];
      if Iou(base.box, rest[i].box) >= mergeIou {
        assert Taken(base, rest[..i + 1], mergeIou) == Taken(base, rest[..i], mergeIou) + [rest[i]];
        assert Rest(base, rest[..i + 1], mergeIou) == Rest(base, rest[..i], mergeIou);
        acc := Absorb(acc, rest[i]);
      } else {
        assert Taken(base, rest[..i + 1], mergeIou) == Taken(base, rest[..i], mergeIou);
        assert Rest(base, rest[..i + 1], mergeIou) == Rest(base, rest[..i], mergeIou) + [rest[i]];
        kept := kept + [rest[i]];
      }
      i := i + 1;
    }
    assert rest[..i] == rest;
  }

  /** `_merge_boxes`. */
  method MergeBoxes(boxes: seq<Entry>, mergeIou: real) returns (merged: seq<Entry>)
    ensures merged == MergeBoxesSpec(boxes, mergeIou)
    ensures |merged| <= |boxes|
    ensures forall e :: e in boxes ==> exists j :: 0 <= j < |merged| && e.box.Within(merged[j].box)
  {
    if mergeIou <= 0.0 || |boxes| <= 1 {
      merged := boxes;
      forall e | e in boxes
        ensures exists j :: 0 <= j < |merged| && e.box.Within(merged[j].box)
      {
        var j :| 0 <= j < |boxes| && boxes[j] == e;
      }
      return;
    }
    var sorted := SortByCorner(boxes);
    var remaining := sorted;
    merged := [];
    while remaining != []
      invariant merged + MergeAll(remaining, mergeIou) == MergeAll(sorted, mergeIou)
      decreases |remaining|
    {
      var acc, kept := MergePass(remaining, mergeIou);
      merged := merged + [acc];
      remaining := kept;
    }
    forall e | e in boxes
      ensures exists j :: 0 <= j < |merged| && e.box.Within(merged[j].box)
    {
      assert e in multiset(sorted);
      MergeCoversOne(sorted, mergeIou, e);
    }
  }
}
