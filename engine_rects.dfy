/**
 * The rectangle toolkit of the main engine (compare_engine.py):
 * `compute_iou`, `rectangles_touch`, and the two merges that collapse a
 * page's change boxes, `merge_rectangles` and `merge_close_rectangles`.
 */
module EngineRects {
  import opened Geometry

  // ---------------------------------------------------------------- compute_iou

  /** True when the two rectangles overlap with positive width and height. */
  predicate Overlap(a: RRect, b: RRect) {
    MinR(a.x1, b.x1) > MaxR(a.x0, b.x0) && MinR(a.y1, b.y1) > MaxR(a.y0, b.y0)
  }

  /** Area with negative sides counted as zero. */
  function ClampedArea(a: RRect): real { MaxR(0.0, a.x1 - a.x0) * MaxR(0.0, a.y1 - a.y0) }

  /**
   * `compute_iou` once the intersection corners and the two clamped areas
   * are known: zero for an empty intersection or a non-positive union.
   */
  function IouOf(ix1: real, iy1: real, ix2: real, iy2: real, areaA: real, areaB: real): real {
    if ix2 <= ix1 || iy2 <= iy1 then 0.0
    else
      var inter := (ix2 - ix1) * (iy2 - iy1);
      var union := areaA + areaB - inter;
      if union <= 0.0 then 0.0 else inter / union
  }

  /** `compute_iou`. */
  function ComputeIou(a: RRect, b: RRect): real {
    IouOf(MaxR(a.x0, b.x0), MaxR(a.y0, b.y0), MinR(a.x1, b.x1), MinR(a.y1, b.y1), ClampedArea(a), ClampedArea(b))
  }

  /** The overlap area is positive and no larger than either rectangle. */
  lemma OverlapArea(a: RRect, b: RRect)
    requires Overlap(a, b)
    ensures var inter := (MinR(a.x1, b.x1) - MaxR(a.x0, b.x0)) * (MinR(a.y1, b.y1) - MaxR(a.y0, b.y0));
            0.0 < inter && inter <= ClampedArea(a) && inter <= ClampedArea(b)
  {
    var w, h := MinR(a.x1, b.x1) - MaxR(a.x0, b.x0), MinR(a.y1, b.y1) - MaxR(a.y0, b.y0);
    assert w * h > 0.0;
    MulLeR(w, h, a.x1 - a.x0, a.y1 - a.y0);
    MulLeR(w, h, b.x1 - b.x0, b.y1 - b.y0);
  }

  /** The IoU lies in [0, 1] and is positive exactly on a positive-area overlap. */
  lemma ComputeIouLaws(a: RRect, b: RRect)
    ensures 0.0 <= ComputeIou(a, b) <= 1.0
    ensures ComputeIou(a, b) > 0.0 <==> Overlap(a, b)
  {
    if Overlap(a, b) {
      OverlapIou(a, b);
    } else {
      assert ComputeIou(a, b) == 0.0;
    }
  }

  lemma OverlapIou(a: RRect, b: RRect)
    requires Overlap(a, b)
    ensures 0.0 < ComputeIou(a, b) <= 1.0
  {
    OverlapArea(a, b);
    var inter := (MinR(a.x1, b.x1) - MaxR(a.x0, b.x0)) * (MinR(a.y1, b.y1) - MaxR(a.y0, b.y0));
    RatioBound(inter, ClampedArea(a), ClampedArea(b));
  }

  /** An overlap no larger than either area gives a ratio in (0, 1] over a positive union. */
  lemma RatioBound(inter: real, areaA: real, areaB: real)
    requires 0.0 < inter <= areaA && inter <= areaB
    ensures areaA + areaB - inter > 0.0 && 0.0 < inter / (areaA + areaB - inter) <= 1.0
  {
    RatioUnit(inter, areaA + areaB - inter);
  }

  /** The IoU does not depend on the order of its arguments. */
  lemma ComputeIouSym(a: RRect, b: RRect)
    ensures ComputeIou(a, b) == ComputeIou(b, a)
  {
    assert MaxR(a.x0, b.x0) == MaxR(b.x0, a.x0) && MaxR(a.y0, b.y0) == MaxR(b.y0, a.y0);
    assert MinR(a.x1, b.x1) == MinR(b.x1, a.x1) && MinR(a.y1, b.y1) == MinR(b.y1, a.y1);
    IouOfSwap(MaxR(a.x0, b.x0), MaxR(a.y0, b.y0), MinR(a.x1, b.x1), MinR(a.y1, b.y1), ClampedArea(a), ClampedArea(b));
  }

  lemma IouOfSwap(ix1: real, iy1: real, ix2: real, iy2: real, areaA: real, areaB: real)
    ensures IouOf(ix1, iy1, ix2, iy2, areaA, areaB) == IouOf(ix1, iy1, ix2, iy2, areaB, areaA)
  {
    var inter := (ix2 - ix1) * (iy2 - iy1);
    assert areaA + areaB - inter == areaB + areaA - inter;
  }

  // ---------------------------------------------------------------- rectangles_touch

  /** `rectangles_touch`: despite its name, rectangles sharing only an edge do not touch. */
  predicate Touch(a: RRect, b: RRect) {
    !(a.x1 <= b.x0 || b.x1 <= a.x0 || a.y1 <= b.y0 || b.y1 <= a.y0)
  }

  /**
   * Touching is symmetric, and for rectangles of positive width and height
   * it is positive-area overlap, so exactly the pairs with a positive IoU.
   */
  lemma TouchLaws(a: RRect, b: RRect)
    ensures Touch(a, b) == Touch(b, a)
    ensures a.x0 < a.x1 && a.y0 < a.y1 && b.x0 < b.x1 && b.y0 < b.y1 ==> (Touch(a, b) <==> Overlap(a, b))
  {
  }

  /** Two unit squares side by side share an edge and do not touch. */
  lemma SharedEdgeNotTouch()
    ensures !Touch(RRect(0.0, 0.0, 1.0, 1.0), RRect(1.0, 0.0, 2.0, 1.0))
  {
  }

  // ---------------------------------------------------------------- merge_rectangles

  /** Every input lies inside some box. */
  ghost predicate Covers(boxes: seq<RRect>, inputs: seq<RRect>) {
    forall r :: r in inputs ==> exists o :: o in boxes && r.Within(o)
  }

  /** Every box of `a` lies inside some box of `b`. */
  ghost predicate Refines(a: seq<RRect>, b: seq<RRect>) {
    forall x :: x in a ==> exists o :: o in b && x.Within(o)
  }

  lemma CoversTrans(a: seq<RRect>, b: seq<RRect>, inputs: seq<RRect>)
    requires Covers(a, inputs) && Refines(a, b)
    ensures Covers(b, inputs)
  {
    forall r | r in inputs ensures exists o :: o in b && r.Within(o) {
      var x :| x in a && r.Within(x);
      var o :| o in b && x.Within(o);
      WithinTransR(r, x, o);
    }
  }

  /** A sequence refines any sequence holding every one of its elements. */
  lemma RefinesSubset(a: seq<RRect>, b: seq<RRect>)
    requires forall x :: x in a ==> x in b
    ensures Refines(a, b)
  {
    forall x | x in a ensures exists o :: o in b && x.Within(o) {
      assert x in b && x.Within(x);
    }
  }

  /** No two boxes at different positions touch. */
  predicate NoneTouch(s: seq<RRect>) {
    forall i, j :: 0 <= i < |s| && 0 <= j < |s| && i != j ==> !Touch(s[i], s[j])
  }

  function Reverse(s: seq<RRect>): (r: seq<RRect>)
    ensures |r| == |s| && forall i :: 0 <= i < |s| ==> r[i] == s[|s| - 1 - i]
  {
    if s == [] then [] else [s[|s| - 1]] + Reverse(s[..|s| - 1])
  }

  /** Popping the last box into `current` keeps the same boxes in play. */
  lemma PopRefines(merged: seq<RRect>, nextPass: seq<RRect>)
    requires merged != []
    ensures Refines(merged + nextPass, merged[..|merged| - 1] + nextPass + [merged[|merged| - 1]])
  {
    var after := merged[..|merged| - 1] + nextPass + [merged[|merged| - 1]];
    forall x | x in merged + nextPass ensures x in after {
      if x in merged {
        var k :| 0 <= k < |merged| && merged[k] == x;
        if k < |merged| - 1 {
          assert merged[..|merged| - 1][k] == x;
        }
      }
    }
    RefinesSubset(merged + nextPass, after);
  }

  /** Absorbing `merged[index]` into `current` keeps every box inside some box in play. */
  lemma AbsorbRefines(merged: seq<RRect>, nextPass: seq<RRect>, current: RRect, index: nat)
    requires index < |merged|
    ensures Refines(merged + nextPass + [current],
                    merged[..index] + merged[index + 1..] + nextPass + [HullR(current, merged[index])])
  {
    var h := HullR(current, merged[index]);
    var after := merged[..index] + merged[index + 1..] + nextPass + [h];
    forall x | x in merged + nextPass + [current] ensures exists o :: o in after && x.Within(o) {
      if x == current || x == merged[index] {
        assert h in after && x.Within(h);
      } else if x in merged {
        var k :| 0 <= k < |merged| && merged[k] == x;
        if k < index {
          assert merged[..index][k] == x;
        } else {
          assert merged[index + 1..][k - index - 1] == x;
        }
        assert x in after && x.Within(x);
      } else {
        assert x in nextPass;
        assert x in after && x.Within(x);
      }
    }
  }

  /** One scan of `merged` for boxes that touch `current`, absorbing each into it. */
  method AbsorbTouching(merged0: seq<RRect>, current0: RRect, nextPass: seq<RRect>, ghost inputs: seq<RRect>)
    returns (merged: seq<RRect>, current: RRect, changed: bool)
    requires Covers(merged0 + nextPass + [current0], inputs)
    ensures Covers(merged + nextPass + [current], inputs)
    ensures |merged| <= |merged0| && (changed <==> |merged| < |merged0|)
    ensures !changed ==> merged == merged0 && current == current0
                         && forall k :: 0 <= k < |merged| ==> !Touch(current, merged[k])
  {
    merged, current, changed := merged0, current0, false;
    var index := 0;
    while index < |merged|
      invariant 0 <= index <= |merged| <= |merged0| && (changed <==> |merged| < |merged0|)
      invariant Covers(merged + nextPass + [current], inputs)
      invariant !changed ==> merged == merged0 && current == current0
                             && forall k :: 0 <= k < index ==> !Touch(current, merged[k])
    {
      var other := merged[index];
      if Touch(current, other) {
        AbsorbRefines(merged, nextPass, current, index);
        CoversTrans(merged + nextPass + [current], merged[..index] + merged[index + 1..] + nextPass + [HullR(current, other)], inputs);
        current := HullR(current, other);
        merged := merged[..index] + merged[index + 1..];
        changed := true;
      } else {
        index := index + 1;
      }
    }
  }

  /** The boxes of `nextPass` touch neither each other nor any box still in `merged`. */
  predicate Settled(nextPass: seq<RRect>, merged: seq<RRect>) {
    NoneTouch(nextPass)
    && forall i, k :: 0 <= i < |nextPass| && 0 <= k < |merged| ==> !Touch(nextPass[i], merged[k])
  }

  /** Moving a box that touches nothing left in `merged` to the end of `nextPass` keeps it settled. */
  lemma SettledStep(nextPass: seq<RRect>, merged: seq<RRect>)
    requires merged != [] && Settled(nextPass, merged)
    requires forall k :: 0 <= k < |merged| - 1 ==> !Touch(merged[|merged| - 1], merged[k])
    ensures Settled(nextPass + [merged[|merged| - 1]], merged[..|merged| - 1])
  {
    var c := merged[|merged| - 1];
    var np := nextPass + [c];
    var rest := merged[..|merged| - 1];
    forall i, j | 0 <= i < |np| && 0 <= j < |np| && i != j ensures !Touch(np[i], np[j]) {
      TouchLaws(np[i], np[j]);
      if i < |nextPass| && j < |nextPass| {
      } else if i < |nextPass| {
        assert !Touch(nextPass[i], merged[|merged| - 1]);
      } else {
        assert !Touch(nextPass[j], merged[|merged| - 1]);
      }
    }
    forall i, k | 0 <= i < |np| && 0 <= k < |rest| ensures !Touch(np[i], rest[k]) {
      assert rest[k] == merged[k];
      if i == |nextPass| {
        assert np[i] == c;
      }
    }
  }

  /** One pass of the outer loop: pop every box and absorb what touches it. */
  method MergePass(merged0: seq<RRect>, ghost inputs: seq<RRect>) returns (nextPass: seq<RRect>, changed: bool)
    requires Covers(merged0, inputs)
    ensures Covers(nextPass, inputs)
    ensures |nextPass| <= |merged0| && (changed ==> |nextPass| < |merged0|)
    ensures !changed ==> NoneTouch(nextPass)
  {
    var merged := merged0;
    nextPass := [];
    changed := false;
    while merged != []
      invariant Covers(merged + nextPass, inputs)
      invariant |merged| + |nextPass| <= |merged0| && (changed ==> |merged| + |nextPass| < |merged0|)
      invariant !changed ==> Settled(nextPass, merged)
      decreases |merged|
    {
      PopRefines(merged, nextPass);
      CoversTrans(merged + nextPass, merged[..|merged| - 1] + nextPass + [merged[|merged| - 1]], inputs);
      var current := merged[|merged| - 1];
      ghost var before := merged;
      merged := merged[..|merged| - 1];
      var absorbed;
      merged, current, absorbed := AbsorbTouching(merged, current, nextPass, inputs);
      if !changed && !absorbed {
        SettledStep(nextPass, before);
      }
      changed := changed || absorbed;
      nextPass := nextPass + [current];
      assert merged + nextPass == merged + (nextPass[..|nextPass| - 1] + [current]);
    }
    assert merged + nextPass == nextPass;
  }

  /**
   * `merge_rectangles`: repeat passes until one absorbs nothing, then
   * reverse. Every input lies inside some output, there are never more
   * outputs than inputs, and no two outputs touch.
   */
  method MergeRectangles(rectangles: seq<RRect>) returns (result: seq<RRect>)
    ensures rectangles == [] ==> result == []
    ensures |result| <= |rectangles|
    ensures Covers(result, rectangles)
    ensures NoneTouch(result)
  {
    if rectangles == [] {
      return [];
    }
    var merged := rectangles;
    RefinesSubset(rectangles, rectangles);
    CoversSelf(rectangles);
    var changed := true;
    while changed
      invariant |merged| <= |rectangles| && Covers(merged, rectangles)
      invariant !changed ==> NoneTouch(merged)
      decreases |merged| + (if changed then 1 else 0)
    {
      merged, changed := MergePass(merged, rectangles);
    }
    result := Reverse(merged);
    ReverseKeeps(merged, rectangles);
  }

  lemma CoversSelf(s: seq<RRect>)
    ensures Covers(s, s)
  {
    forall r | r in s ensures exists o :: o in s && r.Within(o) {
      assert r.Within(r);
    }
  }

  lemma ReverseKeeps(s: seq<RRect>, inputs: seq<RRect>)
    requires Covers(s, inputs) && NoneTouch(s)
    ensures Covers(Reverse(s), inputs) && NoneTouch(Reverse(s))
  {
    var r := Reverse(s);
    forall x | x in s ensures x in r {
      var k :| 0 <= k < |s| && s[k] == x;
      assert r[|s| - 1 - k] == x;
    }
    RefinesSubset(s, r);
    CoversTrans(s, r, inputs);
    forall i, j | 0 <= i < |r| && 0 <= j < |r| && i != j ensures !Touch(r[i], r[j]) {
      assert r[i] == s[|s| - 1 - i] && r[j] == s[|s| - 1 - j];
    }
  }

  // ---------------------------------------------------------------- merge_close_rectangles

  /** `MERGE_IOU_THRESHOLD` and `MERGE_CENTER_DIST_FACTOR`. */
  const MergeIouThreshold: real := 0.10
  const MergeCenterDistFactor: real := 0.5

  /** The bounding box of a non-empty cluster (`min`/`max` over its members). */
  function Bounds(cluster: seq<RRect>): (r: RRect)
    requires cluster != []
    ensures forall x :: x in cluster ==> x.Within(r)
  {
    if |cluster| == 1 then cluster[0]
    else
      var r := HullR(Bounds(cluster[..|cluster| - 1]), cluster[|cluster| - 1]);
      assert forall x :: x in cluster ==> x in cluster[..|cluster| - 1] || x == cluster[|cluster| - 1];
      forall x | x in cluster[..|cluster| - 1] ensures x.Within(r) {
        WithinTransR(x, Bounds(cluster[..|cluster| - 1]), r);
      }
      r
  }

  /** Half the width plus height. */
  function Span(r: RRect): real { (r.x1 - r.x0 + r.y1 - r.y0) / 2.0 }

  /**
   * `dist <= MERGE_CENTER_DIST_FACTOR * max(cluster_span, other_span)` with
   * `dist` the distance between the centres, compared through its square.
   */
  predicate CentresClose(box: RRect, other: RRect) {
    var dx := 0.5 * (box.x0 + box.x1) - 0.5 * (other.x0 + other.x1);
    var dy := 0.5 * (box.y0 + box.y1) - 0.5 * (other.y0 + other.y1);
    var limit := MergeCenterDistFactor * MaxR(Span(box), Span(other));
    limit >= 0.0 && dx * dx + dy * dy <= limit * limit
  }

  /** Whether `other` joins a cluster whose box is `box`. */
  predicate Joins(box: RRect, other: RRect) {
    Touch(box, other) || ComputeIou(box, other) >= MergeIouThreshold || CentresClose(box, other)
  }

  lemma RangeCard(s: set<int>, n: nat)
    requires forall k :: k in s ==> 0 <= k < n
    ensures |s| <= n
  {
    if n > 0 {
      RangeCard(s - {n - 1}, n - 1);
    } else {
      assert forall k :: k !in s;
      assert s == {};
    }
  }

  /**
   * One sweep over the rectangles for the current cluster: each unused
   * rectangle that `Joins` the (fixed) cluster box of this sweep is added.
   */
  method Sweep(rects: seq<RRect>, cluster0: seq<RRect>, used0: set<int>)
    returns (cluster: seq<RRect>, used: set<int>, changed: bool)
    requires cluster0 != [] && forall k :: k in used0 ==> 0 <= k < |rects|
    ensures |cluster| >= |cluster0| && cluster[..|cluster0|] == cluster0 && used0 <= used
    ensures forall k :: k in used ==> 0 <= k < |rects|
    ensures forall k :: k in used - used0 ==> rects[k] in cluster
    ensures changed <==> |used| > |used0|
    ensures |cluster| - |cluster0| == |used| - |used0|
  {
    cluster, used, changed := cluster0, used0, false;
    var box := Bounds(cluster0);
    var otherIdx := 0;
    while otherIdx < |rects|
      invariant 0 <= otherIdx <= |rects| && cluster != [] && |cluster| >= |cluster0| && cluster[..|cluster0|] == cluster0
      invariant used0 <= used && (forall k :: k in used ==> 0 <= k < |rects|)
      invariant forall k :: k in used - used0 ==> rects[k] in cluster && k < otherIdx
      invariant changed <==> |used| > |used0|
      invariant |cluster| - |cluster0| == |used| - |used0|
    {
      var other := rects[otherIdx];
      if otherIdx !in used && Joins(box, other) {
        assert forall x :: x in cluster ==> x in cluster + [other];
        used := used + {otherIdx};
        cluster := cluster + [other];
        changed := true;
      }
      otherIdx := otherIdx + 1;
    }
  }

  /**
   * `merge_close_rectangles`: grow a cluster from each unused rectangle
   * until a sweep adds nothing, take each cluster's bounding box, then run
   * `merge_rectangles` over those boxes.
   */
  method MergeCloseRectangles(rectangles: seq<RRect>) returns (result: seq<RRect>)
    ensures rectangles == [] ==> result == []
    ensures |result| <= |rectangles|
    ensures Covers(result, rectangles)
    ensures NoneTouch(result)
  {
    var rects := rectangles;
    if rects == [] {
      return [];
    }
    var merged: seq<RRect> := [];
    var used: set<int> := {};
    var idx := 0;
    while idx < |rects|
      invariant 0 <= idx <= |rects| && |merged| <= idx
      invariant forall k :: k in used ==> 0 <= k < |rects|
      invariant forall k :: 0 <= k < idx ==> k in used
      invariant forall k :: k in used ==> exists o :: o in merged && rects[k].Within(o)
    {
      if idx in used {
        idx := idx + 1;
        continue;
      }
      var cluster := [rects[idx]];
      ghost var usedBefore := used;
      used := used + {idx};
      var changed := true;
      while changed
        invariant cluster != [] && usedBefore <= used && idx in used
        invariant forall k :: k in used ==> 0 <= k < |rects|
        invariant forall k :: k in used - usedBefore ==> rects[k] in cluster
        decreases |rects| - |used| + (if changed then 1 else 0)
      {
        RangeCard(used, |rects|);
        var grown, nowUsed;
        grown, nowUsed, changed := Sweep(rects, cluster, used);
        assert forall x :: x in cluster ==> x in grown by {
          assert forall x :: x in cluster ==> x in grown[..|cluster|];
        }
        RangeCard(nowUsed, |rects|);
        cluster, used := grown, nowUsed;
      }
      var box := Bounds(cluster);
      merged := merged + [box];
      forall k | k in used ensures exists o :: o in merged && rects[k].Within(o) {
        if k in usedBefore {
          var o :| o in merged[..|merged| - 1] && rects[k].Within(o);
          assert o in merged;
        } else {
          assert rects[k] in cluster && box in merged;
        }
      }
      idx := idx + 1;
    }
    forall r | r in rects ensures exists o :: o in merged && r.Within(o) {
      var k :| 0 <= k < |rects| && rects[k] == r;
      assert k in used;
    }
    result := MergeRectangles(merged);
    CoversTrans(merged, result, rects);
  }
}
