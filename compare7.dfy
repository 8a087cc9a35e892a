/**
 * The first-page comparison of compare7_gui.py: the two renders are
 * letterboxed onto black canvases of the larger size only when their shapes
 * differ, the contour boxes of the change mask of at least `MinArea` pixels
 * are merged by a work list with a one-pixel tolerance, and the same merged
 * boxes are mapped onto each page with that page's offset, clipped to it and
 * scaled from 300-dpi pixels to points. The contour bounding rectangles are
 * passed in.
 */
module Compare7 {
  import opened Wrappers
  import opened Geometry
  import Canvas
  import Text
  import SetGui

  const MinArea := 36

  /** `_ensure_pdf`: a missing file, then a name not ending in `.pdf` (in any case), is refused. */
  function EnsurePdf(path: string, isFile: bool): (r: Result<()>)
    ensures r.Ok? <==> isFile && |path| >= 4 && Text.Lower(path[|path| - 4..]) == ".pdf"
    ensures !isFile ==> r == Err(FileNotFoundError("File not found: " + path))
    ensures isFile && r.Err? ==> r == Err(ValueError("Not a PDF file: " + path))
  {
    var lowered := Text.Lower(path);
    assert |path| >= 4 ==> lowered[|path| - 4..] == Text.Lower(path[|path| - 4..]);
    if !isFile then Err(FileNotFoundError("File not found: " + path))
    else if !(|lowered| >= 4 && lowered[|lowered| - 4..] == ".pdf") then Err(ValueError("Not a PDF file: " + path))
    else Ok(())
  }

  // ---------------------------------------------------------------- canvases

  /**
   * The canvases and offsets of `run_compare`. Renders of different shapes
   * are centred on new black canvases of the larger height and width;
   * renders of one shape are used as they are, with offsets (0, 0). Either
   * way the offsets are the centring offsets and every canvas pixel is the
   * render placed on black, so skipping the copy changes nothing.
   */
  method Canvases(oldImg: array2<int>, newImg: array2<int>)
    returns (oldCanvas: array2<int>, newCanvas: array2<int>, oldOffset: (nat, nat), newOffset: (nat, nat))
    ensures oldImg.Length0 == newImg.Length0 && oldImg.Length1 == newImg.Length1 ==>
              oldCanvas == oldImg && newCanvas == newImg && oldOffset == (0, 0) && newOffset == (0, 0)
    ensures !(oldImg.Length0 == newImg.Length0 && oldImg.Length1 == newImg.Length1) ==> fresh(oldCanvas) && fresh(newCanvas)
    ensures var hh := MaxI(oldImg.Length0, newImg.Length0);
            var ww := MaxI(oldImg.Length1, newImg.Length1);
            oldCanvas.Length0 == hh && oldCanvas.Length1 == ww && newCanvas.Length0 == hh && newCanvas.Length1 == ww
            && oldOffset == (Canvas.CenterOffset(ww, oldImg.Length1), Canvas.CenterOffset(hh, oldImg.Length0))
            && newOffset == (Canvas.CenterOffset(ww, newImg.Length1), Canvas.CenterOffset(hh, newImg.Length0))
            && (forall y, x :: 0 <= y < hh && 0 <= x < ww ==>
                  oldCanvas[y, x] == Canvas.Placed(oldImg, oldOffset.0, oldOffset.1, 0, y, x)
                  && newCanvas[y, x] == Canvas.Placed(newImg, newOffset.0, newOffset.1, 0, y, x))
  {
    var hh := MaxI(oldImg.Length0, newImg.Length0);
    var ww := MaxI(oldImg.Length1, newImg.Length1);
    if oldImg.Length0 != newImg.Length0 || oldImg.Length1 != newImg.Length1 {
      var xo, yo, xn, yn;
      oldCanvas, xo, yo := Canvas.Center(oldImg, hh, ww, 0);
      newCanvas, xn, yn := Canvas.Center(newImg, hh, ww, 0);
      oldOffset, newOffset := (xo, yo), (xn, yn);
    } else {
      oldCanvas, newCanvas := oldImg, newImg;
      oldOffset, newOffset := (0, 0), (0, 0);
    }
  }

  // ---------------------------------------------------------------- contour boxes

  /** The boxes `(x, y, x + w, y + h)` of the contour rectangles `(x, y, w, h)` with `w * h >= MinArea`, in order. */
  function ContourBoxes(bounds: seq<(int, int, int, int)>): (r: seq<Box>)
    ensures |r| <= |bounds|
    ensures forall t :: t in bounds && t.2 * t.3 >= MinArea ==> Box(t.0, t.1, t.0 + t.2, t.1 + t.3) in r
    ensures forall b :: b in r ==> exists t :: t in bounds && t.2 * t.3 >= MinArea && b == Box(t.0, t.1, t.0 + t.2, t.1 + t.3)
  {
    if bounds == [] then []
    else
      var pre := bounds[..|bounds| - 1];
      var k := ContourBoxes(pre);
      var t := bounds[|bounds| - 1];
      assert forall c :: c in bounds <==> c in pre || c == t;
      if t.2 * t.3 >= MinArea then k + [Box(t.0, t.1, t.0 + t.2, t.1 + t.3)] else k
  }

  // ---------------------------------------------------------------- merging

  /** `overlaps` inside `_merge_boxes`: the boxes overlap or lie at most one pixel apart on both axes. */
  predicate Overlaps(a: Box, b: Box) {
    !(a.x1 < b.x0 - 1 || a.x0 > b.x1 + 1 || a.y1 < b.y0 - 1 || a.y0 > b.y1 + 1)
  }

  /** A box grown by one pixel on every side. */
  function Grow(a: Box): Box { Box(a.x0 - 1, a.y0 - 1, a.x1 + 1, a.y1 + 1) }

  /**
   * The tolerant test is symmetric, and for well-formed boxes it holds
   * exactly when `a` grown by one pixel shares a point with `b`: a gap of
   * one pixel still counts, a gap of two does not.
   */
  lemma OverlapsLaws(a: Box, b: Box)
    ensures Overlaps(a, b) == Overlaps(b, a)
    ensures a.WellFormed() && b.WellFormed() ==>
              (Overlaps(a, b) <==> exists x, y :: SetGui.HasPoint(Grow(a), x, y) && SetGui.HasPoint(b, x, y))
  {
    assert Overlaps(a, b) == SetGui.Touch(Grow(a), b);
    SetGui.TouchLaws(Grow(a), b);
  }

  /** The first index at or after `i` whose box overlaps `cur`, or `|merged|` when none does. */
  function FirstOverlap(merged: seq<Box>, cur: Box, i: nat): (k: nat)
    requires i <= |merged|
    ensures i <= k <= |merged|
    ensures k < |merged| ==> Overlaps(cur, merged[k])
    ensures forall j :: i <= j < k ==> !Overlaps(cur, merged[j])
    decreases |merged| - i
  {
    if i == |merged| then i
    else if Overlaps(cur, merged[i]) then i
    else FirstOverlap(merged, cur, i + 1)
  }

  /**
   * What one popped box does to the merged list: the first box it overlaps
   * is replaced by their hull, which is also pushed back, unless the hull
   * is that box already; a box that overlaps nothing is appended.
   */
  function Place(merged: seq<Box>, cur: Box): (r: (seq<Box>, Option<Box>))
    ensures |r.0| == |merged| + (if FirstOverlap(merged, cur, 0) < |merged| then 0 else 1)
  {
    var k := FirstOverlap(merged, cur, 0);
    if k < |merged| then
      var c := Hull(cur, merged[k]);
      if c != merged[k] then (merged[k := c], Some(c)) else (merged, None)
    else (merged + [cur], None)
  }

  function OptSeq(o: Option<Box>): seq<Box> { if o.Some? then [o.value] else [] }

  /** The work list and the merged list. */
  datatype State = State(pending: seq<Box>, merged: seq<Box>)

  /** One turn of `while pending`. */
  function Step(st: State): (r: State)
    requires |st.pending| > 0
  {
    var cur := st.pending[|st.pending| - 1];
    var p := Place(st.merged, cur);
    State(st.pending[..|st.pending| - 1] + OptSeq(p.1), p.0)
  }

  // Termination: every box ever built is a hull of input boxes, so its
  // coordinates stay in the range [lo, hi] of the input coordinates; a
  // replaced box strictly grows inside that range.

  predicate InRange(b: Box, lo: int, hi: int) {
    lo <= b.x0 <= hi && lo <= b.y0 <= hi && lo <= b.x1 <= hi && lo <= b.y1 <= hi
  }

  predicate AllInRange(s: seq<Box>, lo: int, hi: int) {
    forall k :: 0 <= k < |s| ==> InRange(s[k], lo, hi)
  }

  predicate Ranged(st: State, lo: int, hi: int) {
    lo <= hi && AllInRange(st.pending, lo, hi) && AllInRange(st.merged, lo, hi)
  }

  /** How far a box is from filling the range: it falls with every growth. */
  function Slack(b: Box, lo: int, hi: int): (n: nat)
    requires InRange(b, lo, hi)
    ensures n <= 4 * (hi - lo)
  {
    (b.x0 - lo) + (b.y0 - lo) + (hi - b.x1) + (hi - b.y1)
  }

  function SlackSum(s: seq<Box>, lo: int, hi: int): nat
    requires AllInRange(s, lo, hi)
  {
    if s == [] then 0 else Slack(s[0], lo, hi) + SlackSum(s[1..], lo, hi)
  }

  lemma {:induction false} SlackUpdate(s: seq<Box>, k: nat, c: Box, lo: int, hi: int)
    requires AllInRange(s, lo, hi) && InRange(c, lo, hi) && k < |s|
    ensures AllInRange(s[k := c], lo, hi)
    ensures SlackSum(s[k := c], lo, hi) == SlackSum(s, lo, hi) - Slack(s[k], lo, hi) + Slack(c, lo, hi)
    decreases k
  {
    if k > 0 {
      assert s[k := c][1..] == s[1..][k - 1 := c];
      SlackUpdate(s[1..], k - 1, c, lo, hi);
    }
  }

  lemma {:induction false} SlackAppend(s: seq<Box>, c: Box, lo: int, hi: int)
    requires AllInRange(s, lo, hi) && InRange(c, lo, hi)
    ensures AllInRange(s + [c], lo, hi)
    ensures SlackSum(s + [c], lo, hi) == SlackSum(s, lo, hi) + Slack(c, lo, hi)
    decreases |s|
  {
    if s != [] {
      assert (s + [c])[1..] == s[1..] + [c];
      SlackAppend(s[1..], c, lo, hi);
    } else {
      assert [c][1..] == [];
    }
  }

  /** `n` times one more than the largest slack, so that popping a box outweighs any slack it brings. */
  function Weight(lo: int, hi: int, n: nat): nat
    requires lo <= hi
  {
    if n == 0 then 0 else 4 * (hi - lo) + 1 + Weight(lo, hi, n - 1)
  }

  function Measure(st: State, lo: int, hi: int): nat
    requires Ranged(st, lo, hi)
  {
    SlackSum(st.merged, lo, hi) + Weight(lo, hi, |st.pending|)
  }

  /** A replacing step: the hull is pushed back and written over the box it grew from. */
  lemma StepGrow(st: State, lo: int, hi: int, k: nat)
    requires Ranged(st, lo, hi) && |st.pending| > 0
    requires k == FirstOverlap(st.merged, st.pending[|st.pending| - 1], 0) < |st.merged|
    requires Hull(st.pending[|st.pending| - 1], st.merged[k]) != st.merged[k]
    ensures Ranged(Step(st), lo, hi)
    ensures Measure(Step(st), lo, hi) < Measure(st, lo, hi)
  {
    var n := |st.pending|;
    var cur := st.pending[n - 1];
    var c := Hull(cur, st.merged[k]);
    assert InRange(cur, lo, hi) && InRange(st.merged[k], lo, hi);
    assert InRange(c, lo, hi);
    SlackUpdate(st.merged, k, c, lo, hi);
    assert Slack(c, lo, hi) < Slack(st.merged[k], lo, hi);
    var s := Step(st);
    assert s.merged == st.merged[k := c];
    assert s.pending == st.pending[..n - 1] + [c];
    assert AllInRange(s.pending, lo, hi);
  }

  /** An appending step: one box leaves the work list and joins the merged list. */
  lemma StepAppend(st: State, lo: int, hi: int)
    requires Ranged(st, lo, hi) && |st.pending| > 0
    requires FirstOverlap(st.merged, st.pending[|st.pending| - 1], 0) == |st.merged|
    ensures Ranged(Step(st), lo, hi)
    ensures Measure(Step(st), lo, hi) < Measure(st, lo, hi)
  {
    var n := |st.pending|;
    var cur := st.pending[n - 1];
    assert InRange(cur, lo, hi);
    SlackAppend(st.merged, cur, lo, hi);
    var s := Step(st);
    assert s.merged == st.merged + [cur];
    assert s.pending == st.pending[..n - 1];
    assert AllInRange(s.pending, lo, hi);
    assert Weight(lo, hi, n) == 4 * (hi - lo) + 1 + Weight(lo, hi, n - 1);
  }

  /** A step stays in range and lowers the measure. */
  lemma StepLaws(st: State, lo: int, hi: int)
    requires Ranged(st, lo, hi) && |st.pending| > 0
    ensures Ranged(Step(st), lo, hi)
    ensures Measure(Step(st), lo, hi) < Measure(st, lo, hi)
  {
    var n := |st.pending|;
    var cur := st.pending[n - 1];
    var k := FirstOverlap(st.merged, cur, 0);
    if k == |st.merged| {
      StepAppend(st, lo, hi);
    } else if Hull(cur, st.merged[k]) != st.merged[k] {
      StepGrow(st, lo, hi, k);
    } else {
      var s := Step(st);
      assert s.merged == st.merged;
      assert s.pending == st.pending[..n - 1];
      assert AllInRange(s.pending, lo, hi);
      assert Weight(lo, hi, n) == 4 * (hi - lo) + 1 + Weight(lo, hi, n - 1);
    }
  }

  /** The work list run to empty. */
  function Work(st: State, lo: int, hi: int): seq<Box>
    requires Ranged(st, lo, hi)
    decreases Measure(st, lo, hi)
  {
    if st.pending == [] then st.merged
    else
      StepLaws(st, lo, hi);
      Work(Step(st), lo, hi)
  }

  /** The least coordinate of the boxes, or 0 if that is smaller. */
  function Lo(s: seq<Box>): (lo: int)
    ensures lo <= 0
    ensures forall k :: 0 <= k < |s| ==> lo <= s[k].x0 && lo <= s[k].y0 && lo <= s[k].x1 && lo <= s[k].y1
  {
    if s == [] then 0 else MinI(MinI(MinI(s[0].x0, s[0].y0), MinI(s[0].x1, s[0].y1)), Lo(s[1..]))
  }

  /** The greatest coordinate of the boxes, or 0 if that is larger. */
  function Hi(s: seq<Box>): (hi: int)
    ensures hi >= 0
    ensures forall k :: 0 <= k < |s| ==> s[k].x0 <= hi && s[k].y0 <= hi && s[k].x1 <= hi && s[k].y1 <= hi
  {
    if s == [] then 0 else MaxI(MaxI(MaxI(s[0].x0, s[0].y0), MaxI(s[0].x1, s[0].y1)), Hi(s[1..]))
  }

  /** `_merge_boxes`: the result of the work list started on the input boxes. */
  function MergeSpec(boxes: seq<Box>): seq<Box> {
    var lo, hi := Lo(boxes), Hi(boxes);
    assert Ranged(State(boxes, []), lo, hi);
    Work(State(boxes, []), lo, hi)
  }

  /** The `for idx, other in enumerate(merged)` loop with its `break`. */
  method PlaceBox(merged: seq<Box>, current: Box) returns (merged': seq<Box>, push: Option<Box>)
    ensures (merged', push) == Place(merged, current)
  {
    for idx := 0 to |merged|
      invariant FirstOverlap(merged, current, idx) == FirstOverlap(merged, current, 0)
    {
      var other := merged[idx];
      if Overlaps(current, other) {
        var combined := Box(MinI(current.x0, other.x0), MinI(current.y0, other.y0),
                            MaxI(current.x1, other.x1), MaxI(current.y1, other.y1));
        if combined != other {
          return merged[idx := combined], Some(combined);
        }
        return merged, None;
      }
    }
    return merged + [current], None;
  }

  /** `_merge_boxes`. */
  method MergeBoxes(boxes: seq<Box>) returns (merged: seq<Box>)
    ensures merged == MergeSpec(boxes)
  {
    ghost var lo, hi := Lo(boxes), Hi(boxes);
    var pending := boxes;
    merged := [];
    while |pending| > 0
      invariant Ranged(State(pending, merged), lo, hi)
      invariant Work(State(pending, merged), lo, hi) == MergeSpec(boxes)
      decreases Measure(State(pending, merged), lo, hi)
    {
      ghost var st := State(pending, merged);
      StepLaws(st, lo, hi);
      var current := pending[|pending| - 1];
      pending := pending[..|pending| - 1];
      var push;
      merged, push := PlaceBox(merged, current);
      if push.Some? {
        pending := pending + [push.value];
      }
      assert State(pending, merged) == Step(st);
    }
  }

  // ---------------------------------------------------------------- what the merge promises

  /** A step keeps every box of the work list and of the merged list inside some box of the two new lists. */
  lemma StepCovers(st: State)
    requires |st.pending| > 0
    ensures var s := Step(st);
            forall b :: b in st.pending + st.merged ==> SetGui.Covered(b, s.pending + s.merged)
  {
    var s := Step(st);
    var n := |st.pending|;
    var cur := st.pending[n - 1];
    var rest := st.pending[..n - 1];
    var k := FirstOverlap(st.merged, cur, 0);
    assert st.pending == rest + [cur];
    forall b | b in st.pending + st.merged
      ensures SetGui.Covered(b, s.pending + s.merged)
    {
      if b in rest {
        assert b in s.pending + s.merged && b.Within(b);
      } else if b == cur {
        if k < |st.merged| {
          var c := Hull(cur, st.merged[k]);
          assert s.merged[k] == c;
          assert c in s.pending + s.merged;
        } else {
          assert s.merged[|st.merged|] == cur;
          assert cur in s.pending + s.merged;
        }
      } else {
        assert b in st.merged;
        var j :| 0 <= j < |st.merged| && st.merged[j] == b;
        if k < |st.merged| && j == k {
          assert s.merged[k] == Hull(cur, st.merged[k]);
          assert s.merged[k] in s.pending + s.merged;
        } else {
          assert s.merged[j] == b;
          assert b in s.pending + s.merged;
        }
      }
    }
  }

  /** Every box of the work list and of the merged list lies inside some box of the final result. */
  lemma {:induction false} WorkCovers(st: State, lo: int, hi: int)
    requires Ranged(st, lo, hi)
    ensures forall b :: b in st.pending + st.merged ==> SetGui.Covered(b, Work(st, lo, hi))
    decreases Measure(st, lo, hi)
  {
    if st.pending == [] {
      forall b | b in st.pending + st.merged
        ensures SetGui.Covered(b, Work(st, lo, hi))
      {
        assert b in st.merged && b.Within(b);
      }
    } else {
      StepLaws(st, lo, hi);
      var s := Step(st);
      StepCovers(st);
      WorkCovers(s, lo, hi);
      forall b | b in st.pending + st.merged
        ensures SetGui.Covered(b, Work(st, lo, hi))
      {
        var o :| o in s.pending + s.merged && b.Within(o);
        var o2 :| o2 in Work(s, lo, hi) && o.Within(o2);
      }
    }
  }

  /** Boxes that all lie in a region merge into boxes that lie in it. */
  lemma {:induction false} WorkWithin(st: State, lo: int, hi: int, region: Box)
    requires Ranged(st, lo, hi)
    requires SetGui.AllWithin(st.pending, region) && SetGui.AllWithin(st.merged, region)
    ensures SetGui.AllWithin(Work(st, lo, hi), region)
    decreases Measure(st, lo, hi)
  {
    if st.pending != [] {
      StepLaws(st, lo, hi);
      var n := |st.pending|;
      var cur := st.pending[n - 1];
      assert cur.Within(region);
      var s := Step(st);
      assert SetGui.AllWithin(s.merged, region);
      assert SetGui.AllWithin(s.pending, region);
      WorkWithin(s, lo, hi, region);
    }
  }

  /**
   * The count never rises: a pushed back hull sits in the merged list and
   * overlaps itself, so it is merged again rather than appended; only the
   * `m` input boxes still waiting can add to the merged list.
   */
  lemma {:induction false} WorkCount(st: State, lo: int, hi: int, m: nat)
    requires Ranged(st, lo, hi)
    requires m <= |st.pending| <= m + 1
    requires |st.pending| == m + 1 ==> st.pending[m] in st.merged && Overlaps(st.pending[m], st.pending[m])
    ensures |Work(st, lo, hi)| <= |st.merged| + m
    decreases Measure(st, lo, hi)
  {
    if st.pending != [] {
      StepLaws(st, lo, hi);
      var n := |st.pending|;
      var cur := st.pending[n - 1];
      var k := FirstOverlap(st.merged, cur, 0);
      var s := Step(st);
      if n == m + 1 {
        var j :| 0 <= j < |st.merged| && st.merged[j] == cur;
        assert k <= j;
      }
      var m' := if n == m + 1 then m else m - 1;
      if k < |st.merged| {
        var c := Hull(cur, st.merged[k]);
        if c != st.merged[k] {
          assert s.merged[k] == c && s.pending == st.pending[..n - 1] + [c];
          assert Overlaps(cur, st.merged[k]);
          assert Overlaps(c, c);
        }
      }
      WorkCount(s, lo, hi, m');
    }
  }

  /**
   * What `_merge_boxes` promises: every input box lies inside some output
   * box, there are no more outputs than inputs, no input gives no output,
   * and the outputs stay inside any region (the canvas) holding the inputs.
   */
  lemma MergeLaws(boxes: seq<Box>, region: Box)
    ensures forall b :: b in boxes ==> SetGui.Covered(b, MergeSpec(boxes))
    ensures |MergeSpec(boxes)| <= |boxes|
    ensures boxes == [] ==> MergeSpec(boxes) == []
    ensures SetGui.AllWithin(boxes, region) ==> SetGui.AllWithin(MergeSpec(boxes), region)
  {
    var lo, hi := Lo(boxes), Hi(boxes);
    var st := State(boxes, []);
    assert Ranged(st, lo, hi);
    assert st.pending + st.merged == boxes;
    WorkCovers(st, lo, hi);
    WorkCount(st, lo, hi, |boxes|);
    if SetGui.AllWithin(boxes, region) {
      WorkWithin(st, lo, hi, region);
    }
  }

  /**
   * Unlike the fixpoint merges of the other engines, the result may hold
   * the same box twice: a horizontal bar and a vertical bar that join below
   * a small corner box grow into one hull that is written both over the
   * bar's slot and over the corner box's.
   */
  lemma MergeKeepsDuplicates()
    ensures MergeSpec([Box(0, 10, 10, 11), Box(9, 0, 11, 11), Box(0, 0, 2, 2)])
            == [Box(0, 0, 11, 11), Box(0, 0, 11, 11)]
  {
    var boxes := [Box(0, 10, 10, 11), Box(9, 0, 11, 11), Box(0, 0, 2, 2)];
    var lo, hi := Lo(boxes), Hi(boxes);
    assert Ranged(State(boxes, []), lo, hi);
    DuplicatesRun(lo, hi);
  }

  /** The five turns of the work list on the example of `MergeKeepsDuplicates`. */
  lemma DuplicatesSteps()
    ensures var a, b, c, d := Box(0, 10, 10, 11), Box(9, 0, 11, 11), Box(0, 0, 2, 2), Box(0, 0, 11, 11);
            Step(State([a, b, c], [])) == State([a, b], [c])
            && Step(State([a, b], [c])) == State([a], [c, b])
            && Step(State([a], [c, b])) == State([d], [c, d])
            && Step(State([d], [c, d])) == State([d], [d, d])
            && Step(State([d], [d, d])) == State([], [d, d])
  {
    var a, b, c, d := Box(0, 10, 10, 11), Box(9, 0, 11, 11), Box(0, 0, 2, 2), Box(0, 0, 11, 11);
    assert FirstOverlap([], c, 0) == 0;
    assert FirstOverlap([c], b, 0) == 1;
    assert FirstOverlap([c, b], a, 0) == 1;
    assert FirstOverlap([c, d], d, 0) == 0;
    assert FirstOverlap([d, d], d, 0) == 0;
  }

  lemma DuplicatesRun(lo: int, hi: int)
    requires Ranged(State([Box(0, 10, 10, 11), Box(9, 0, 11, 11), Box(0, 0, 2, 2)], []), lo, hi)
    ensures Work(State([Box(0, 10, 10, 11), Box(9, 0, 11, 11), Box(0, 0, 2, 2)], []), lo, hi)
            == [Box(0, 0, 11, 11), Box(0, 0, 11, 11)]
  {
    var a, b, c, d := Box(0, 10, 10, 11), Box(9, 0, 11, 11), Box(0, 0, 2, 2), Box(0, 0, 11, 11);
    DuplicatesSteps();
    var s0, s1, s2, s3, s4, s5 := State([a, b, c], []), State([a, b], [c]), State([a], [c, b]),
                                  State([d], [c, d]), State([d], [d, d]), State([], [d, d]);
    StepLaws(s0, lo, hi);
    StepLaws(s1, lo, hi);
    StepLaws(s2, lo, hi);
    StepLaws(s3, lo, hi);
    StepLaws(s4, lo, hi);
    assert Work(s5, lo, hi) == [d, d];
    assert Work(s4, lo, hi) == Work(s5, lo, hi);
    assert Work(s3, lo, hi) == Work(s4, lo, hi);
    assert Work(s2, lo, hi) == Work(s3, lo, hi);
    assert Work(s1, lo, hi) == Work(s2, lo, hi);
  }

  // ---------------------------------------------------------------- back to the pages

  /**
   * `_clip_box`: each coordinate clamped into the page; `None` when the
   * clamped box is empty. What remains is the largest box inside both the
   * box and the page, and `None` comes back exactly when no box of positive
   * area lies inside both.
   */
  function ClipBox(b: Box, width: int, height: int): (r: Option<Box>)
    ensures r.Some? ==>
              r.value.x0 < r.value.x1 && r.value.y0 < r.value.y1
              && r.value.Within(b) && r.value.Within(SetGui.Page(width, height))
              && forall o: Box :: o.Within(b) && o.Within(SetGui.Page(width, height)) ==> o.Within(r.value)
    ensures r.None? ==>
              forall o: Box :: o.Within(b) && o.Within(SetGui.Page(width, height)) ==> o.x1 <= o.x0 || o.y1 <= o.y0
  {
    var x1 := MaxI(0, MinI(width, b.x0));
    var y1 := MaxI(0, MinI(height, b.y0));
    var x2 := MaxI(0, MinI(width, b.x1));
    var y2 := MaxI(0, MinI(height, b.y1));
    if x2 <= x1 || y2 <= y1 then None else Some(Box(x1, y1, x2, y2))
  }

  /** `map_boxes`: each box moved by minus the offset, clipped to the page and scaled to points, in order. */
  function MapBoxes(boxes: seq<Box>, offset: (int, int), width: int, height: int): (r: seq<RRect>)
    ensures |r| <= |boxes|
    ensures forall q :: q in r ==>
              q.Within(SetGui.ToPoints(SetGui.Page(width, height))) && q.x0 < q.x1 && q.y0 < q.y1
    ensures forall q :: q in r ==>
              exists b, c :: b in boxes && ClipBox(SetGui.Moved(b, offset.0, offset.1), width, height) == Some(c)
                             && q == SetGui.ToPoints(c)
    ensures forall b, c :: b in boxes && ClipBox(SetGui.Moved(b, offset.0, offset.1), width, height) == Some(c) ==>
              SetGui.ToPoints(c) in r
  {
    if boxes == [] then []
    else
      var pre := boxes[..|boxes| - 1];
      var k := MapBoxes(pre, offset, width, height);
      assert forall b :: b in boxes <==> b in pre || b == boxes[|boxes| - 1];
      match ClipBox(SetGui.Moved(boxes[|boxes| - 1], offset.0, offset.1), width, height)
      case None => k
      case Some(c) =>
        SetGui.ToPointsWithin(c, SetGui.Page(width, height));
        k + [SetGui.ToPoints(c)]
  }

  /** `map_boxes` with its loop. */
  method MapBoxesLoop(boxes: seq<Box>, offset: (int, int), width: int, height: int) returns (mapped: seq<RRect>)
    ensures mapped == MapBoxes(boxes, offset, width, height)
  {
    mapped := [];
    for i := 0 to |boxes|
      invariant mapped == MapBoxes(boxes[..i], offset, width, height)
    {
      assert boxes[..i + 1][..i] == boxes[..i];
      var box := boxes[i];
      var local := Box(box.x0 - offset.0, box.y0 - offset.1, box.x1 - offset.0, box.y1 - offset.1);
      var clipped := ClipBox(local, width, height);
      assert local == SetGui.Moved(boxes[..i + 1][i], offset.0, offset.1);
      if clipped.None? {
        assert MapBoxes(boxes[..i + 1], offset, width, height) == mapped;
        continue;
      }
      var c := clipped.value;
      var rect := RRect(c.x0 as real * SetGui.PixelToPoint, c.y0 as real * SetGui.PixelToPoint,
                        c.x1 as real * SetGui.PixelToPoint, c.y1 as real * SetGui.PixelToPoint);
      assert rect == SetGui.ToPoints(c);
      assert MapBoxes(boxes[..i + 1], offset, width, height) == mapped + [rect];
      mapped := mapped + [rect];
    }
    assert boxes[..|boxes|] == boxes;
  }

  /** The rectangles drawn on the old and the new page, from the contour rectangles and the two renders' sizes. */
  function CompareSpec(oldH: nat, oldW: nat, newH: nat, newW: nat, bounds: seq<(int, int, int, int)>): (seq<RRect>, seq<RRect>) {
    var hh, ww := MaxI(oldH, newH), MaxI(oldW, newW);
    var merged := MergeSpec(ContourBoxes(bounds));
    (MapBoxes(merged, (Canvas.CenterOffset(ww, oldW), Canvas.CenterOffset(hh, oldH)), oldW, oldH),
     MapBoxes(merged, (Canvas.CenterOffset(ww, newW), Canvas.CenterOffset(hh, newH)), newW, newH))
  }

  /** Renders of one shape get the same rectangles on both pages, since one merged list serves both. */
  lemma SameShapeSameRects(h: nat, w: nat, bounds: seq<(int, int, int, int)>)
    ensures CompareSpec(h, w, h, w, bounds).0 == CompareSpec(h, w, h, w, bounds).1
    ensures var r := CompareSpec(h, w, h, w, bounds).0;
            forall q :: q in r ==> q.Within(SetGui.ToPoints(SetGui.Page(w, h)))
  {
  }

  /**
   * The rectangle part of `run_compare`: the input checks and page counts
   * in the source's order, then the rectangles for both pages.
   */
  method RunCompare(oldPath: string, oldIsFile: bool, newPath: string, newIsFile: bool,
                    oldPageCount: nat, newPageCount: nat, oldImg: array2<int>, newImg: array2<int>,
                    bounds: seq<(int, int, int, int)>)
    returns (r: Result<(seq<RRect>, seq<RRect>)>)
    ensures EnsurePdf(oldPath, oldIsFile).Err? ==> r == Err(EnsurePdf(oldPath, oldIsFile).error)
    ensures EnsurePdf(oldPath, oldIsFile).Ok? && EnsurePdf(newPath, newIsFile).Err? ==> r == Err(EnsurePdf(newPath, newIsFile).error)
    ensures EnsurePdf(oldPath, oldIsFile).Ok? && EnsurePdf(newPath, newIsFile).Ok? ==>
              if oldPageCount == 0 then r == Err(ValueError("Old PDF has no pages"))
              else if newPageCount == 0 then r == Err(ValueError("New PDF has no pages"))
              else r == Ok(CompareSpec(oldImg.Length0, oldImg.Length1, newImg.Length0, newImg.Length1, bounds))
  {
    var okOld := EnsurePdf(oldPath, oldIsFile);
    if okOld.Err? {
      return Err(okOld.error);
    }
    var okNew := EnsurePdf(newPath, newIsFile);
    if okNew.Err? {
      return Err(okNew.error);
    }
    if oldPageCount == 0 {
      return Err(ValueError("Old PDF has no pages"));
    }
    if newPageCount == 0 {
      return Err(ValueError("New PDF has no pages"));
    }
    var oldCanvas, newCanvas, oldOffset, newOffset := Canvases(oldImg, newImg);
    var boxes := ContourBoxes(bounds);
    var merged := MergeBoxes(boxes);
    var oldRects := MapBoxesLoop(merged, oldOffset, oldImg.Length1, oldImg.Length0);
    var newRects := MapBoxesLoop(merged, newOffset, newImg.Length1, newImg.Length0);
    return Ok((oldRects, newRects));
  }
}
