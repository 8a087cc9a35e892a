/**
 * The drawing-only comparison of comparador.py: nearby drawing rectangles
 * of a page are first merged into dimension boxes, then the pages are
 * compared box against box by IoU, and the removed and added boxes are
 * reported with their page number. The drawings of each page are passed
 * in as rectangles.
 */
module Comparador {
  import opened Wrappers
  import opened Geometry
  import opened Greedy
  import opened VectorMatch

  /** `_boxes_close`: `b` meets `a` grown by `prox` on every side. */
  predicate BoxesClose(a: RRect, b: RRect, prox: real) {
    !(a.x1 + prox < b.x0 || a.x0 - prox > b.x1 || a.y1 + prox < b.y0 || a.y0 - prox > b.y1)
  }

  /** The gap between two intervals `[a0, a1]` and `[b0, b1]`: zero when they meet. */
  function Gap(a0: real, a1: real, b0: real, b1: real): (g: real)
    ensures g >= 0.0
  {
    MaxR(0.0, MaxR(b0 - a1, a0 - b1))
  }

  /**
   * Closeness is symmetric, and for `prox >= 0` it holds exactly when the
   * gap between the boxes is at most `prox` on both axes; in particular
   * overlapping or touching boxes are close.
   */
  lemma CloseLaws(a: RRect, b: RRect, prox: real)
    ensures BoxesClose(a, b, prox) == BoxesClose(b, a, prox)
    ensures prox >= 0.0 ==>
              (BoxesClose(a, b, prox) <==> Gap(a.x0, a.x1, b.x0, b.x1) <= prox && Gap(a.y0, a.y1, b.y0, b.y1) <= prox)
    ensures prox >= 0.0 && InterAreaR(a, b) > 0.0 ==> BoxesClose(a, b, prox)
  {
    InterBoundR(a, b);
  }

  /** The number of `false` entries, which bounds how often a box can still be absorbed. */
  function CountFalse(s: seq<bool>): nat {
    if s == [] then 0 else CountFalse(s[..|s| - 1]) + (if s[|s| - 1] then 0 else 1)
  }

  lemma {:induction false} CountFalseSet(s: seq<bool>, j: nat)
    requires j < |s| && !s[j]
    ensures CountFalse(s[j := true]) == CountFalse(s) - 1
  {
    var n := |s| - 1;
    if j < n {
      CountFalseSet(s[..n], j);
      assert s[j := true][..n] == s[..n][j := true];
    } else {
      assert s[j := true][..n] == s[..n];
    }
  }

  /** The state after part of one pass: the marks, the growing box, and whether anything was absorbed. */
  datatype PassState = PassState(used: seq<bool>, cur: RRect, changed: bool)

  /**
   * The rest of one `for j in range(i + 1, len(boxes))` pass, from `j` on:
   * every unused box close to the growing box is absorbed into it and
   * marked used.
   */
  function PassFrom(boxes: seq<RRect>, used: seq<bool>, j: nat, cur: RRect, prox: real, changed: bool): (r: PassState)
    requires |used| == |boxes|
    ensures |r.used| == |boxes| && CountFalse(r.used) <= CountFalse(used)
    ensures r.changed ==> changed || CountFalse(r.used) < CountFalse(used)
    decreases |boxes| - j
  {
    if j >= |boxes| then PassState(used, cur, changed)
    else if used[j] then PassFrom(boxes, used, j + 1, cur, prox, changed)
    else if BoxesClose(cur, boxes[j], prox) then
      CountFalseSet(used, j);
      PassFrom(boxes, used[j := true], j + 1, HullR(cur, boxes[j]), prox, true)
    else PassFrom(boxes, used, j + 1, cur, prox, changed)
  }

  /**
   * The `while changed` loop grown from `cur` for base `i`: passes repeat
   * until one absorbs nothing; each pass that absorbs leaves fewer unused
   * boxes, so this ends.
   */
  function Grow(boxes: seq<RRect>, used: seq<bool>, i: nat, cur: RRect, prox: real): (r: (seq<bool>, RRect))
    requires |used| == |boxes|
    ensures |r.0| == |boxes|
    decreases CountFalse(used)
  {
    var p := PassFrom(boxes, used, i + 1, cur, prox, false);
    if p.changed then Grow(boxes, p.used, i, p.cur, prox) else (p.used, p.cur)
  }

  /** The outer loop from box `i` on, with the outputs so far in `merged`. */
  function MergeFrom(boxes: seq<RRect>, used: seq<bool>, merged: seq<RRect>, i: nat, prox: real): seq<RRect>
    requires |used| == |boxes| && i <= |boxes|
    decreases |boxes| - i
  {
    if i == |boxes| then merged
    else if used[i] then MergeFrom(boxes, used, merged, i + 1, prox)
    else
      var g := Grow(boxes, used, i, boxes[i], prox);
      MergeFrom(boxes, g.0, merged + [g.1], i + 1, prox)
  }

  function Unused(n: nat): (s: seq<bool>)
    ensures |s| == n && forall k :: 0 <= k < n ==> !s[k]
  {
    seq(n, _ => false)
  }

  /** What `_merge_dimension_boxes` returns. */
  function MergeBoxes(boxes: seq<RRect>, prox: real): seq<RRect> {
    MergeFrom(boxes, Unused(|boxes|), [], 0, prox)
  }

  /**
   * A pass only grows the box, only marks boxes from `j` on, never unmarks
   * one, and every box it marks lies inside the box it ends with.
   */
  lemma PassLaws(boxes: seq<RRect>, used: seq<bool>, j: nat, cur: RRect, prox: real, changed: bool)
    requires |used| == |boxes|
    ensures var r := PassFrom(boxes, used, j, cur, prox, changed);
            cur.Within(r.cur)
            && (forall k :: 0 <= k < |boxes| && used[k] ==> r.used[k])
            && (forall k :: 0 <= k < j && k < |boxes| ==> r.used[k] == used[k])
            && (forall k :: 0 <= k < |boxes| && r.used[k] && !used[k] ==> boxes[k].Within(r.cur))
  {
    PassGrows(boxes, used, j, cur, prox, changed);
    PassMarks(boxes, used, j, cur, prox, changed);
    PassInside(boxes, used, j, cur, prox, changed);
  }

  /** A pass ends with a box holding the one it started from. */
  lemma {:induction false} PassGrows(boxes: seq<RRect>, used: seq<bool>, j: nat, cur: RRect, prox: real, changed: bool)
    requires |used| == |boxes|
    ensures cur.Within(PassFrom(boxes, used, j, cur, prox, changed).cur)
    decreases |boxes| - j
  {
    if j >= |boxes| {
    } else if used[j] {
      PassGrows(boxes, used, j + 1, cur, prox, changed);
    } else if BoxesClose(cur, boxes[j], prox) {
      var used', cur' := used[j := true], HullR(cur, boxes[j]);
      PassGrows(boxes, used', j + 1, cur', prox, true);
      WithinTransR(cur, cur', PassFrom(boxes, used', j + 1, cur', prox, true).cur);
    } else {
      PassGrows(boxes, used, j + 1, cur, prox, changed);
    }
  }

  /** A pass never unmarks a box and leaves the marks before `j` alone. */
  lemma {:induction false} PassMarks(boxes: seq<RRect>, used: seq<bool>, j: nat, cur: RRect, prox: real, changed: bool)
    requires |used| == |boxes|
    ensures var r := PassFrom(boxes, used, j, cur, prox, changed);
            (forall k :: 0 <= k < |boxes| && used[k] ==> r.used[k])
            && (forall k :: 0 <= k < j && k < |boxes| ==> r.used[k] == used[k])
    decreases |boxes| - j
  {
    if j < |boxes| {
      var used', cur', changed' := used, cur, changed;
      if !used[j] && BoxesClose(cur, boxes[j], prox) {
        used', cur', changed' := used[j := true], HullR(cur, boxes[j]), true;
      }
      assert PassFrom(boxes, used, j, cur, prox, changed) == PassFrom(boxes, used', j + 1, cur', prox, changed');
      PassMarks(boxes, used', j + 1, cur', prox, changed');
      var r := PassFrom(boxes, used', j + 1, cur', prox, changed');
      forall k | 0 <= k < |boxes| && used[k]
        ensures r.used[k]
      {
        assert used'[k];
      }
      forall k | 0 <= k < j
        ensures r.used[k] == used[k]
      {
        assert used'[k] == used[k];
      }
    }
  }

  /** Every box a pass marks lies inside the box it ends with. */
  lemma {:induction false} PassInside(boxes: seq<RRect>, used: seq<bool>, j: nat, cur: RRect, prox: real, changed: bool)
    requires |used| == |boxes|
    ensures var r := PassFrom(boxes, used, j, cur, prox, changed);
            forall k :: 0 <= k < |boxes| && r.used[k] && !used[k] ==> boxes[k].Within(r.cur)
    decreases |boxes| - j
  {
    if j >= |boxes| {
    } else if used[j] {
      PassInside(boxes, used, j + 1, cur, prox, changed);
    } else if BoxesClose(cur, boxes[j], prox) {
      var used', cur' := used[j := true], HullR(cur, boxes[j]);
      PassInside(boxes, used', j + 1, cur', prox, true);
      PassGrows(boxes, used', j + 1, cur', prox, true);
      var r := PassFrom(boxes, used', j + 1, cur', prox, true);
      WithinTransR(boxes[j], cur', r.cur);
      forall k | 0 <= k < |boxes| && r.used[k] && !used[k]
        ensures boxes[k].Within(r.cur)
      {
        if k != j {
          assert !used'[k];
        }
      }
    } else {
      PassInside(boxes, used, j + 1, cur, prox, changed);
    }
  }

  /**
   * Growing from `cur` for base `i` ends in a box holding `cur`, marks only
   * boxes after `i`, never unmarks one, and every box it marks lies inside
   * the final box.
   */
  lemma {:induction false} GrowLaws(boxes: seq<RRect>, used: seq<bool>, i: nat, cur: RRect, prox: real)
    requires |used| == |boxes|
    ensures var r := Grow(boxes, used, i, cur, prox);
            cur.Within(r.1)
            && (forall k :: 0 <= k < |boxes| && used[k] ==> r.0[k])
            && (forall k :: 0 <= k <= i && k < |boxes| ==> r.0[k] == used[k])
            && (forall k :: 0 <= k < |boxes| && r.0[k] && !used[k] ==> boxes[k].Within(r.1))
    decreases CountFalse(used)
  {
    var p := PassFrom(boxes, used, i + 1, cur, prox, false);
    PassLaws(boxes, used, i + 1, cur, prox, false);
    if p.changed {
      GrowLaws(boxes, p.used, i, p.cur, prox);
      var r := Grow(boxes, p.used, i, p.cur, prox);
      WithinTransR(cur, p.cur, r.1);
      forall k | 0 <= k < |boxes| && r.0[k] && !used[k]
        ensures boxes[k].Within(r.1)
      {
        if p.used[k] {
          WithinTransR(boxes[k], p.cur, r.1);
        }
      }
    }
  }

  /** One pass, as the inner `for j` loop. */
  method AbsorbPass(boxes: seq<RRect>, used: seq<bool>, i: nat, cur: RRect, prox: real)
    returns (used2: seq<bool>, cur2: RRect, changed: bool)
    requires |used| == |boxes| && i < |boxes|
    ensures PassState(used2, cur2, changed) == PassFrom(boxes, used, i + 1, cur, prox, false)
  {
    used2, cur2, changed := used, cur, false;
    var j := i + 1;
    while j < |boxes|
      invariant i + 1 <= j <= |boxes| && |used2| == |boxes|
      invariant PassFrom(boxes, used2, j, cur2, prox, changed) == PassFrom(boxes, used, i + 1, cur, prox, false)
    {
      if used2[j] {
        j := j + 1;
        continue;
      }
      if BoxesClose(cur2, boxes[j], prox) {
        var bx := boxes[j];
        cur2 := RRect(MinR(cur2.x0, bx.x0), MinR(cur2.y0, bx.y0), MaxR(cur2.x1, bx.x1), MaxR(cur2.y1, bx.y1));
        used2 := used2[j := true];
        changed := true;
      }
      j := j + 1;
    }
  }

  /** The `while changed` loop around the passes. */
  method GrowBox(boxes: seq<RRect>, used: seq<bool>, i: nat, prox: real) returns (used2: seq<bool>, cur: RRect)
    requires |used| == |boxes| && i < |boxes|
    ensures (used2, cur) == Grow(boxes, used, i, boxes[i], prox)
  {
    used2, cur := used, boxes[i];
    var changed := true;
    while changed
      invariant |used2| == |boxes|
      invariant changed ==> Grow(boxes, used2, i, cur, prox) == Grow(boxes, used, i, boxes[i], prox)
      invariant !changed ==> (used2, cur) == Grow(boxes, used, i, boxes[i], prox)
      decreases CountFalse(used2) + (if changed then 1 else 0)
    {
      used2, cur, changed := AbsorbPass(boxes, used2, i, cur, prox);
    }
  }

  /**
   * The bookkeeping of the merge once the boxes before `i` are handled:
   * every handled or absorbed box lies inside its output, and is at or after
   * that output's base; each base owns its output; the bases increase.
   */
  ghost predicate Covered(boxes: seq<RRect>, used: seq<bool>, owner: seq<nat>, merged: seq<RRect>, bases: seq<nat>, i: nat) {
    i <= |boxes| && |used| == |boxes| && |owner| == |boxes| && |bases| == |merged|
    && (forall k :: 0 <= k < |boxes| && (k < i || used[k]) ==>
          owner[k] < |merged| && boxes[k].Within(merged[owner[k]]) && bases[owner[k]] <= k)
    && (forall m :: 0 <= m < |merged| ==> bases[m] < i && owner[bases[m]] == m)
    && (forall m, m' :: 0 <= m < m' < |merged| ==> bases[m] < bases[m'])
  }

  /** Closing the group of base `i` as a new output keeps the bookkeeping. */
  lemma CoveredStep(boxes: seq<RRect>, used: seq<bool>, owner: seq<nat>, merged: seq<RRect>, bases: seq<nat>, i: nat,
                    used2: seq<bool>, cur: RRect)
    requires i < |boxes| && Covered(boxes, used, owner, merged, bases, i) && !used[i]
    requires |used2| == |boxes| && boxes[i].Within(cur)
    requires forall k :: 0 <= k < |boxes| && used[k] ==> used2[k]
    requires forall k :: 0 <= k <= i ==> used2[k] == used[k]
    requires forall k :: 0 <= k < |boxes| && used2[k] && !used[k] ==> boxes[k].Within(cur)
    ensures Covered(boxes, used2, Reown(owner, used, used2, i, |merged|), merged + [cur], bases + [i], i + 1)
  {
    var owner2 := Reown(owner, used, used2, i, |merged|);
    var merged2, bases2 := merged + [cur], bases + [i];
    forall k | 0 <= k < |boxes| && (k < i + 1 || used2[k])
      ensures owner2[k] < |merged2| && boxes[k].Within(merged2[owner2[k]]) && bases2[owner2[k]] <= k
    {
      if k == i || (used2[k] && !used[k]) {
        assert owner2[k] == |merged|;
      } else {
        assert owner2[k] == owner[k] && (k < i || used[k]);
      }
    }
    forall m | 0 <= m < |merged2|
      ensures bases2[m] < i + 1 && owner2[bases2[m]] == m
    {
      if m < |merged| {
        assert bases2[m] == bases[m] < i;
      }
    }
  }

  /** A box already absorbed is skipped without changing the bookkeeping. */
  lemma CoveredSkip(boxes: seq<RRect>, used: seq<bool>, owner: seq<nat>, merged: seq<RRect>, bases: seq<nat>, i: nat)
    requires i < |boxes| && Covered(boxes, used, owner, merged, bases, i) && used[i]
    ensures Covered(boxes, used, owner, merged, bases, i + 1)
  {
  }

  /** The owners after closing the group of base `i`: the base and the boxes it absorbed go to output `idx`. */
  function Reown(owner: seq<nat>, used: seq<bool>, used2: seq<bool>, i: nat, idx: nat): (r: seq<nat>)
    requires |used| == |owner| && |used2| == |owner|
    ensures |r| == |owner|
    ensures forall k :: 0 <= k < |owner| ==> r[k] == if k == i || (used2[k] && !used[k]) then idx else owner[k]
  {
    seq(|owner|, k requires 0 <= k < |owner| => if k == i || (used2[k] && !used[k]) then idx else owner[k])
  }

  /**
   * What a merge guarantees: no more outputs than inputs, at least one when
   * there are inputs; every input lies inside its output and is at or after
   * that output's base; each base is owned by its own output; the bases
   * increase.
   */
  ghost predicate MergedFrom(boxes: seq<RRect>, merged: seq<RRect>, owner: seq<nat>, bases: seq<nat>) {
    |merged| <= |boxes| && |owner| == |boxes| && |bases| == |merged|
    && (boxes != [] ==> merged != [])
    && (forall k :: 0 <= k < |boxes| ==>
          owner[k] < |merged| && boxes[k].Within(merged[owner[k]]) && bases[owner[k]] <= k)
    && (forall m :: 0 <= m < |merged| ==> bases[m] < |boxes| && owner[bases[m]] == m)
    && (forall m, m' :: 0 <= m < m' < |merged| ==> bases[m] < bases[m'])
  }

  /** Before the first box nothing is handled or absorbed. */
  lemma CoveredInit(boxes: seq<RRect>, used: seq<bool>, owner: seq<nat>)
    requires |used| == |boxes| && |owner| == |boxes|
    requires forall k :: 0 <= k < |used| ==> !used[k]
    ensures Covered(boxes, used, owner, [], [], 0)
  {
  }

  /** The bookkeeping of a finished merge gives the guarantees of `MergeDimensionBoxes`. */
  lemma CoveredDone(boxes: seq<RRect>, used: seq<bool>, owner: seq<nat>, merged: seq<RRect>, bases: seq<nat>)
    requires Covered(boxes, used, owner, merged, bases, |boxes|)
    ensures MergedFrom(boxes, merged, owner, bases)
  {
    if boxes != [] {
      assert owner[0] < |merged|;
    }
    BasesBound(bases, |boxes|);
  }

  /** Strictly increasing bases below `n` number at most `n`. */
  lemma {:induction false} BasesBound(bases: seq<nat>, n: nat)
    requires forall m :: 0 <= m < |bases| ==> bases[m] < n
    requires forall m, m' :: 0 <= m < m' < |bases| ==> bases[m] < bases[m']
    ensures |bases| <= n
  {
    if bases != [] {
      var last := bases[|bases| - 1];
      BasesBound(bases[..|bases| - 1], last);
    }
  }

  /** One turn of the outer loop: skip an absorbed box, or grow a new output from it. */
  method MergeStep(boxes: seq<RRect>, prox: real, used: seq<bool>, ghost owner: seq<nat>, merged: seq<RRect>,
                   ghost bases: seq<nat>, i: nat)
    returns (used': seq<bool>, ghost owner': seq<nat>, merged': seq<RRect>, ghost bases': seq<nat>)
    requires i < |boxes| && Covered(boxes, used, owner, merged, bases, i)
    ensures Covered(boxes, used', owner', merged', bases', i + 1)
    ensures MergeFrom(boxes, used', merged', i + 1, prox) == MergeFrom(boxes, used, merged, i, prox)
  {
    if used[i] {
      CoveredSkip(boxes, used, owner, merged, bases, i);
      return used, owner, merged, bases;
    }
    var used2, cur := GrowBox(boxes, used, i, prox);
    GrowLaws(boxes, used, i, boxes[i], prox);
    CoveredStep(boxes, used, owner, merged, bases, i, used2, cur);
    used', owner', merged', bases' := used2, Reown(owner, used, used2, i, |merged|), merged + [cur], bases + [i];
  }

  /**
   * `_merge_dimension_boxes`. Besides the merged boxes it yields, as ghost
   * results, the output each input ended in and the input each output grew
   * from: every input lies inside its output, and an output only absorbs
   * inputs at or after its own base, the bases being in increasing order.
   */
  method MergeDimensionBoxes(boxes: seq<RRect>, prox: real)
    returns (merged: seq<RRect>, ghost owner: seq<nat>, ghost bases: seq<nat>)
    ensures merged == MergeBoxes(boxes, prox)
    ensures MergedFrom(boxes, merged, owner, bases)
  {
    var n := |boxes|;
    merged := [];
    owner := seq(n, _ => 0);
    bases := [];
    var used := Unused(n);
    CoveredInit(boxes, used, owner);
    var i := 0;
    while i < n
      invariant Covered(boxes, used, owner, merged, bases, i)
      invariant MergeFrom(boxes, used, merged, i, prox) == MergeBoxes(boxes, prox)
    {
      used, owner, merged, bases := MergeStep(boxes, prox, used, owner, merged, bases, i);
      i := i + 1;
    }
    CoveredDone(boxes, used, owner, merged, bases);
  }

  // ---------------------------------------------------------------- merge laws

  /** A pass that meets no unused box close to its box changes nothing. */
  lemma {:induction false} PassIdle(boxes: seq<RRect>, used: seq<bool>, j: nat, cur: RRect, prox: real, changed: bool)
    requires |used| == |boxes|
    requires forall k :: j <= k < |boxes| && !used[k] ==> !BoxesClose(cur, boxes[k], prox)
    ensures PassFrom(boxes, used, j, cur, prox, changed) == PassState(used, cur, changed)
    decreases |boxes| - j
  {
    if j < |boxes| {
      PassIdle(boxes, used, j + 1, cur, prox, changed);
    }
  }

  /** Boxes no two of which are within `prox` of each other; the earlier one is the growing box. */
  predicate FarApart(boxes: seq<RRect>, prox: real) {
    forall a, b :: 0 <= a < b < |boxes| ==> !BoxesClose(boxes[a], boxes[b], prox)
  }

  lemma {:induction false} MergeFromFar(boxes: seq<RRect>, i: nat, prox: real)
    requires i <= |boxes| && FarApart(boxes, prox)
    ensures MergeFrom(boxes, Unused(|boxes|), boxes[..i], i, prox) == boxes
    decreases |boxes| - i
  {
    var used := Unused(|boxes|);
    if i == |boxes| {
      assert boxes[..i] == boxes;
    } else {
      PassIdle(boxes, used, i + 1, boxes[i], prox, false);
      assert Grow(boxes, used, i, boxes[i], prox) == (used, boxes[i]);
      assert boxes[..i] + [boxes[i]] == boxes[..i + 1];
      MergeFromFar(boxes, i + 1, prox);
    }
  }

  /** When no two boxes are close, merging returns the boxes unchanged. */
  lemma MergeFar(boxes: seq<RRect>, prox: real)
    requires FarApart(boxes, prox)
    ensures MergeBoxes(boxes, prox) == boxes
  {
    MergeFromFar(boxes, 0, prox);
  }

  /** Every box has positive width and height. */
  predicate AllPositive(boxes: seq<RRect>) {
    forall k :: 0 <= k < |boxes| ==> boxes[k].x0 < boxes[k].x1 && boxes[k].y0 < boxes[k].y1
  }

  lemma {:induction false} MergeFromPositive(boxes: seq<RRect>, used: seq<bool>, merged: seq<RRect>, i: nat, prox: real)
    requires |used| == |boxes| && i <= |boxes| && AllPositive(boxes) && AllPositive(merged)
    ensures AllPositive(MergeFrom(boxes, used, merged, i, prox))
    decreases |boxes| - i
  {
    if i < |boxes| {
      if used[i] {
        MergeFromPositive(boxes, used, merged, i + 1, prox);
      } else {
        var g := Grow(boxes, used, i, boxes[i], prox);
        GrowLaws(boxes, used, i, boxes[i], prox);
        assert AllPositive(merged + [g.1]);
        MergeFromPositive(boxes, g.0, merged + [g.1], i + 1, prox);
      }
    }
  }

  /** Each merged box holds some input box, so boxes of positive area merge into boxes of positive area. */
  lemma MergePositive(boxes: seq<RRect>, prox: real)
    requires AllPositive(boxes)
    ensures AllPositive(MergeBoxes(boxes, prox))
  {
    MergeFromPositive(boxes, Unused(|boxes|), [], 0, prox);
  }

  /** Two close boxes merge into their bounding box. */
  lemma MergeTwoClose(a: RRect, b: RRect, prox: real)
    requires BoxesClose(a, b, prox)
    ensures MergeBoxes([a, b], prox) == [HullR(a, b)]
  {
    var boxes := [a, b];
    var used := Unused(2);
    var used' := used[1 := true];
    assert PassFrom(boxes, used, 1, a, prox, false) == PassState(used', HullR(a, b), true);
    assert PassFrom(boxes, used', 1, HullR(a, b), prox, false) == PassState(used', HullR(a, b), false);
    assert Grow(boxes, used, 0, a, prox) == (used', HullR(a, b));
    var none: seq<RRect> := [];
    assert none + [HullR(a, b)] == [HullR(a, b)];
    assert MergeFrom(boxes, used', [HullR(a, b)], 1, prox) == MergeFrom(boxes, used', [HullR(a, b)], 2, prox);
    assert MergeFrom(boxes, used, none, 0, prox) == MergeFrom(boxes, used', [HullR(a, b)], 1, prox);
  }

  // ---------------------------------------------------------------- pages

  /** `{"pagina": p, "bbox": b}`. */
  datatype BoxRecord = BoxRecord(page: nat, box: RRect)

  /** The boxes of page `p`, or none when the document has fewer pages. */
  function BoxesOn(pages: seq<seq<RRect>>, p: nat): seq<RRect> {
    if p < |pages| then pages[p] else []
  }

  function PageCount(oldPages: seq<seq<RRect>>, newPages: seq<seq<RRect>>): nat {
    if |oldPages| >= |newPages| then |oldPages| else |newPages|
  }

  /** The pages as `_extract_bboxes` returns them: merged when `merge_prox` is given. */
  function MergedPages(pages: seq<seq<RRect>>, mergeProx: Option<real>): (r: seq<seq<RRect>>)
    ensures |r| == |pages|
    ensures forall p :: 0 <= p < |pages| ==>
              r[p] == if mergeProx.Some? then MergeBoxes(pages[p], mergeProx.value) else pages[p]
  {
    seq(|pages|, p requires 0 <= p < |pages| =>
      if mergeProx.Some? then MergeBoxes(pages[p], mergeProx.value) else pages[p])
  }

  /** The merging step of `_extract_bboxes`, page by page. */
  method MergeAllPages(pages: seq<seq<RRect>>, mergeProx: Option<real>) returns (out: seq<seq<RRect>>)
    ensures out == MergedPages(pages, mergeProx)
  {
    out := [];
    var p := 0;
    while p < |pages|
      invariant 0 <= p <= |pages| && out == MergedPages(pages, mergeProx)[..p]
    {
      var boxes := pages[p];
      if mergeProx.Some? {
        var merged, _, _ := MergeDimensionBoxes(boxes, mergeProx.value);
        boxes := merged;
      }
      out := out + [boxes];
      p := p + 1;
    }
  }

  /** The per-page results for every page index below the larger page count. */
  function PlainResults(oldPages: seq<seq<RRect>>, newPages: seq<seq<RRect>>, thr: real)
    : (rs: seq<(seq<RRect>, seq<RRect>)>)
    ensures |rs| == PageCount(oldPages, newPages)
    ensures forall p :: 0 <= p < |rs| ==> rs[p] == PlainSpec(BoxesOn(oldPages, p), BoxesOn(newPages, p), thr)
  {
    seq(PageCount(oldPages, newPages), p requires 0 <= p =>
      PlainSpec(BoxesOn(oldPages, p), BoxesOn(newPages, p), thr))
  }

  /** The records of page `p` for the boxes of a page result. */
  function TagBoxes(p: nat, boxes: seq<RRect>): (rs: seq<BoxRecord>)
    ensures |rs| == |boxes|
    ensures forall i :: 0 <= i < |boxes| ==> rs[i] == BoxRecord(p, boxes[i])
  {
    seq(|boxes|, i requires 0 <= i < |boxes| => BoxRecord(p, boxes[i]))
  }

  /** The page results tagged with their page index and concatenated in page order. */
  function TagAllBoxes(results: seq<(seq<RRect>, seq<RRect>)>): (seq<BoxRecord>, seq<BoxRecord>) {
    if results == [] then ([], [])
    else
      var n := |results| - 1;
      var prev := TagAllBoxes(results[..n]);
      (prev.0 + TagBoxes(n, results[n].0), prev.1 + TagBoxes(n, results[n].1))
  }

  /** One more page adds its tagged boxes at the end. */
  lemma TagAllBoxesNext(results: seq<(seq<RRect>, seq<RRect>)>, p: nat)
    requires p < |results|
    ensures TagAllBoxes(results[..p + 1])
         == (TagAllBoxes(results[..p]).0 + TagBoxes(p, results[p].0), TagAllBoxes(results[..p]).1 + TagBoxes(p, results[p].1))
  {
    assert results[..p + 1][..p] == results[..p];
  }

  /** The page loop of `comparar_pdfs` on extracted pages. */
  method ComparePages(oldPages: seq<seq<RRect>>, newPages: seq<seq<RRect>>, thr: real)
    returns (removidos: seq<BoxRecord>, adicionados: seq<BoxRecord>)
    ensures (removidos, adicionados) == TagAllBoxes(PlainResults(oldPages, newPages, thr))
  {
    var maxPages := PageCount(oldPages, newPages);
    ghost var results := PlainResults(oldPages, newPages, thr);
    removidos, adicionados := [], [];
    var p := 0;
    while p < maxPages
      invariant 0 <= p <= maxPages
      invariant (removidos, adicionados) == TagAllBoxes(results[..p])
    {
      TagAllBoxesNext(results, p);
      var oldBoxes := BoxesOn(oldPages, p);
      var newBoxes := BoxesOn(newPages, p);
      var rem, add := ComparePlain(oldBoxes, newBoxes, thr);
      assert results[p] == (rem, add);
      removidos := removidos + TagBoxes(p, rem);
      adicionados := adicionados + TagBoxes(p, add);
      p := p + 1;
    }
    assert results[..p] == results;
  }

  /** `comparar_pdfs` on the drawing rectangles of each page of both documents. */
  method CompararPdfs(oldRaw: seq<seq<RRect>>, newRaw: seq<seq<RRect>>, thr: real, mergeProx: Option<real>)
    returns (removidos: seq<BoxRecord>, adicionados: seq<BoxRecord>)
    ensures (removidos, adicionados)
            == TagAllBoxes(PlainResults(MergedPages(oldRaw, mergeProx), MergedPages(newRaw, mergeProx), thr))
  {
    var oldPages := MergeAllPages(oldRaw, mergeProx);
    var newPages := MergeAllPages(newRaw, mergeProx);
    removidos, adicionados := ComparePages(oldPages, newPages, thr);
  }

  /** Every record carries the page it came from and a box of that page's result. */
  lemma {:induction false} TagAllBoxesPages(results: seq<(seq<RRect>, seq<RRect>)>)
    ensures forall r :: r in TagAllBoxes(results).0 ==> r.page < |results| && r.box in results[r.page].0
    ensures forall r :: r in TagAllBoxes(results).1 ==> r.page < |results| && r.box in results[r.page].1
  {
    if results != [] {
      var n := |results| - 1;
      TagAllBoxesPages(results[..n]);
      assert forall p :: 0 <= p < n ==> results[..n][p] == results[p];
    }
  }

  /** Pages that each report nothing give no records. */
  lemma {:induction false} TagAllBoxesQuiet(results: seq<(seq<RRect>, seq<RRect>)>)
    requires forall p :: 0 <= p < |results| ==> results[p] == ([], [])
    ensures TagAllBoxes(results) == ([], [])
  {
    if results != [] {
      var n := |results| - 1;
      TagAllBoxesQuiet(results[..n]);
      assert TagBoxes(n, []) == [];
    }
  }

  /**
   * A page only one document has reports all its boxes: as removed when
   * only the old document has it, as added when only the new one has it.
   */
  lemma MissingPages(oldPages: seq<seq<RRect>>, newPages: seq<seq<RRect>>, thr: real, p: nat)
    requires p < PageCount(oldPages, newPages)
    ensures p >= |newPages| ==> PlainResults(oldPages, newPages, thr)[p] == (oldPages[p], [])
    ensures p >= |oldPages| ==> PlainResults(oldPages, newPages, thr)[p] == ([], newPages[p])
  {
    PlainMissingPage(BoxesOn(oldPages, p), BoxesOn(newPages, p), thr);
  }

  /**
   * A document compared with itself reports nothing, merged or not, when
   * its rectangles have positive area and `thr <= 1`.
   */
  lemma SelfCompare(raw: seq<seq<RRect>>, thr: real, mergeProx: Option<real>)
    requires thr <= 1.0
    requires forall p :: 0 <= p < |raw| ==> AllPositive(raw[p])
    ensures TagAllBoxes(PlainResults(MergedPages(raw, mergeProx), MergedPages(raw, mergeProx), thr)) == ([], [])
  {
    var pages := MergedPages(raw, mergeProx);
    var results := PlainResults(pages, pages, thr);
    forall p | 0 <= p < |results|
      ensures results[p] == ([], [])
    {
      if mergeProx.Some? {
        MergePositive(raw[p], mergeProx.value);
      }
      PlainIdentity(pages[p], thr);
    }
    TagAllBoxesQuiet(results);
  }
}
