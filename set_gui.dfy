/**
 * The first-page comparison of compare_set_gui.py: both renders are centred
 * on a white canvas of the larger size, the candidate boxes found on each
 * canvas are merged until no two touch, mapped back onto their own page and
 * scaled from 300-dpi pixels to points. The candidate boxes come from
 * OpenCV contours and are passed in.
 */
module SetGui {
  import opened Wrappers
  import opened Geometry
  import Canvas

  const Dpi := 300
  /** `PIXEL_TO_POINT = 72.0 / DPI`. */
  const PixelToPoint: real := 72.0 / 300.0

  // ---------------------------------------------------------------- canvases

  /** `_center_on_canvas`: an `h` by `w` canvas of white (255) with `img` copied in at the centred offset (x, y). */
  method CenterOnCanvas(img: array2<int>, h: nat, w: nat) returns (canvas: array2<int>, offset: (nat, nat))
    requires img.Length0 <= h && img.Length1 <= w
    ensures fresh(canvas) && canvas.Length0 == h && canvas.Length1 == w
    ensures offset == (Canvas.CenterOffset(w, img.Length1), Canvas.CenterOffset(h, img.Length0))
    ensures forall y, x :: 0 <= y < h && 0 <= x < w ==> canvas[y, x] == Canvas.Placed(img, offset.0, offset.1, 255, y, x)
  {
    var xoff, yoff;
    canvas, xoff, yoff := Canvas.Center(img, h, w, 255);
    offset := (xoff, yoff);
  }

  /** The two canvases of `run_compare`: both of the larger height and width, each render centred on its own. */
  method Canvases(oldImg: array2<int>, newImg: array2<int>)
    returns (oldCanvas: array2<int>, oldOffset: (nat, nat), newCanvas: array2<int>, newOffset: (nat, nat))
    ensures fresh(oldCanvas) && fresh(newCanvas)
    ensures var hh := MaxI(oldImg.Length0, newImg.Length0);
            var ww := MaxI(oldImg.Length1, newImg.Length1);
            oldCanvas.Length0 == hh && oldCanvas.Length1 == ww && newCanvas.Length0 == hh && newCanvas.Length1 == ww
            && oldOffset == (Canvas.CenterOffset(ww, oldImg.Length1), Canvas.CenterOffset(hh, oldImg.Length0))
            && newOffset == (Canvas.CenterOffset(ww, newImg.Length1), Canvas.CenterOffset(hh, newImg.Length0))
            && (forall y, x :: 0 <= y < hh && 0 <= x < ww ==>
                  oldCanvas[y, x] == Canvas.Placed(oldImg, oldOffset.0, oldOffset.1, 255, y, x)
                  && newCanvas[y, x] == Canvas.Placed(newImg, newOffset.0, newOffset.1, 255, y, x))
  {
    var hh := MaxI(oldImg.Length0, newImg.Length0);
    var ww := MaxI(oldImg.Length1, newImg.Length1);
    oldCanvas, oldOffset := CenterOnCanvas(oldImg, hh, ww);
    newCanvas, newOffset := CenterOnCanvas(newImg, hh, ww);
  }

  // ---------------------------------------------------------------- touching

  /** `_boxes_touch_or_overlap`: no gap on either axis, so boxes sharing an edge or a corner touch. */
  predicate Touch(a: Box, b: Box) {
    !(a.x1 < b.x0 || b.x1 < a.x0) && !(a.y1 < b.y0 || b.y1 < a.y0)
  }

  /** The point (x, y) lies in the closed box `b`. */
  predicate HasPoint(b: Box, x: int, y: int) {
    b.x0 <= x <= b.x1 && b.y0 <= y <= b.y1
  }

  /**
   * The touch test is symmetric, and for well-formed boxes it holds exactly
   * when the two closed boxes share a point, so a shared edge counts.
   */
  lemma TouchLaws(a: Box, b: Box)
    ensures Touch(a, b) == Touch(b, a)
    ensures a.WellFormed() && b.WellFormed() ==>
              (Touch(a, b) <==> exists x, y :: HasPoint(a, x, y) && HasPoint(b, x, y))
  {
    if a.WellFormed() && b.WellFormed() && Touch(a, b) {
      var x, y := MaxI(a.x0, b.x0), MaxI(a.y0, b.y0);
      assert HasPoint(a, x, y) && HasPoint(b, x, y);
    }
  }

  // ---------------------------------------------------------------- merging

  /** The first index at or after `i` whose box touches `cur`, or `|res|` when none does. */
  function FirstTouch(res: seq<Box>, cur: Box, i: nat): (k: nat)
    requires i <= |res|
    ensures i <= k <= |res|
    ensures k < |res| ==> Touch(cur, res[k])
    ensures forall j :: i <= j < k ==> !Touch(cur, res[j])
    decreases |res| - i
  {
    if i == |res| then i
    else if Touch(cur, res[i]) then i
    else FirstTouch(res, cur, i + 1)
  }

  /**
   * One step of the inner loop of `_merge_boxes`: the first box of the
   * result that touches `cur` grows to hold it, otherwise `cur` is appended;
   * the flag says whether a merge happened.
   */
  function Insert(res: seq<Box>, cur: Box): (r: (seq<Box>, bool))
    ensures |r.0| == |res| + (if r.1 then 0 else 1)
    ensures !r.1 <==> forall e :: e in res ==> !Touch(cur, e)
    ensures !r.1 ==> r.0 == res + [cur]
  {
    var k := FirstTouch(res, cur, 0);
    if k < |res| then (res[k := Hull(res[k], cur)], true) else (res + [cur], false)
  }

  /**
   * One pass of the outer loop: the work list is popped from its end and
   * each box inserted into the result; the flag says whether any merge
   * happened. A pass with a merge shortens the list.
   */
  function Drain(w: seq<Box>): (r: (seq<Box>, bool))
    ensures r.1 ==> |r.0| < |w|
    ensures !r.1 ==> |r.0| == |w|
  {
    if w == [] then ([], false)
    else
      var t := Drain(w[1..]);
      var u := Insert(t.0, w[0]);
      (u.0, t.1 || u.1)
  }

  /** `_merge_boxes`: passes repeat until one merges nothing. */
  function MergeFrom(w: seq<Box>): (r: seq<Box>)
    ensures |r| <= |w|
    ensures w == [] ==> r == []
    decreases |w|
  {
    var d := Drain(w);
    if d.1 then MergeFrom(d.0) else d.0
  }

  /** The inner `for idx, existing in enumerate(result)` loop with its `break`. */
  method InsertBox(result: seq<Box>, current: Box) returns (r: seq<Box>, merged: bool)
    ensures (r, merged) == Insert(result, current)
  {
    var idx := 0;
    while idx < |result|
      invariant 0 <= idx <= |result|
      invariant FirstTouch(result, current, idx) == FirstTouch(result, current, 0)
    {
      if Touch(current, result[idx]) {
        var existing := result[idx];
        var grown := Box(MinI(existing.x0, current.x0), MinI(existing.y0, current.y0),
                         MaxI(existing.x1, current.x1), MaxI(existing.y1, current.y1));
        return result[idx := grown], true;
      }
      idx := idx + 1;
    }
    return result + [current], false;
  }

  /** `_merge_boxes`. */
  method MergeBoxes(boxes: seq<Box>) returns (r: seq<Box>)
    ensures r == MergeFrom(boxes)
  {
    if |boxes| == 0 {
      return [];
    }
    var working := boxes;
    var changed := true;
    while changed
      invariant changed ==> MergeFrom(working) == MergeFrom(boxes)
      invariant !changed ==> working == MergeFrom(boxes)
      decreases |working| + (if changed then 1 else 0)
    {
      changed := false;
      var result: seq<Box> := [];
      ghost var orig := working;
      while |working| > 0
        invariant working == orig[..|working|]
        invariant (result, changed) == Drain(orig[|working|..])
      {
        var current := working[|working| - 1];
        working := working[..|working| - 1];
        assert orig[|working|..][1..] == orig[|working| + 1..];
        var merged;
        result, merged := InsertBox(result, current);
        changed := changed || merged;
      }
      assert orig[0..] == orig;
      working := result;
    }
    r := working;
  }

  /** No two distinct positions of `s` hold touching boxes. */
  predicate Apart(s: seq<Box>) {
    forall i, j :: 0 <= i < |s| && 0 <= j < |s| && i != j ==> !Touch(s[i], s[j])
  }

  /** Some box of `s` holds `b`. */
  predicate Covered(b: Box, s: seq<Box>) {
    exists o :: o in s && b.Within(o)
  }

  /** Every box of `s` lies inside `region`. */
  predicate AllWithin(s: seq<Box>, region: Box) {
    forall k :: 0 <= k < |s| ==> s[k].Within(region)
  }

  /** An insertion keeps `cur` and every earlier box covered, and stays inside any region holding them all. */
  lemma InsertLaws(res: seq<Box>, cur: Box, region: Box)
    ensures var r := Insert(res, cur).0;
            Covered(cur, r) && forall e :: e in res ==> Covered(e, r)
    ensures AllWithin(res, region) && cur.Within(region) ==> AllWithin(Insert(res, cur).0, region)
  {
    var k := FirstTouch(res, cur, 0);
    var r := Insert(res, cur).0;
    if k < |res| {
      assert r[k] == Hull(res[k], cur);
      forall e | e in res
        ensures Covered(e, r)
      {
        var j :| 0 <= j < |res| && res[j] == e;
        assert r[j] in r;
      }
      assert r[k] in r && cur.Within(r[k]);
    } else {
      assert r[|res|] in r && cur.Within(r[|res|]);
      forall e | e in res
        ensures Covered(e, r)
      {
        var j :| 0 <= j < |res| && res[j] == e;
        assert r[j] in r && e.Within(r[j]);
      }
    }
  }

  /** A pass keeps every box of its work list covered, and stays inside any region that held them. */
  lemma {:induction false} DrainLaws(w: seq<Box>, region: Box)
    ensures forall b :: b in w ==> Covered(b, Drain(w).0)
    ensures AllWithin(w, region) ==> AllWithin(Drain(w).0, region)
    ensures !Drain(w).1 ==> Apart(Drain(w).0)
  {
    if w != [] {
      var t := Drain(w[1..]);
      DrainLaws(w[1..], region);
      InsertLaws(t.0, w[0], region);
      var u := Insert(t.0, w[0]);
      forall b | b in w
        ensures Covered(b, u.0)
      {
        if b != w[0] {
          assert b in w[1..];
          var o :| o in t.0 && b.Within(o);
          var o2 :| o2 in u.0 && o.Within(o2);
        }
      }
      if AllWithin(w, region) {
        assert AllWithin(w[1..], region);
      }
      if !(t.1 || u.1) {
        assert u.0 == t.0 + [w[0]];
        forall i, j | 0 <= i < |u.0| && 0 <= j < |u.0| && i != j
          ensures !Touch(u.0[i], u.0[j])
        {
          if i == |t.0| {
            assert u.0[j] in t.0;
          } else if j == |t.0| {
            assert u.0[i] in t.0;
          }
        }
      }
    }
  }

  /**
   * What `_merge_boxes` promises: no two output boxes touch, every input box
   * lies inside some output box, there are no more outputs than inputs, and
   * the outputs stay inside any region (the canvas) that held the inputs.
   */
  lemma {:induction false} MergeLaws(w: seq<Box>, region: Box)
    ensures Apart(MergeFrom(w))
    ensures forall b :: b in w ==> Covered(b, MergeFrom(w))
    ensures |MergeFrom(w)| <= |w|
    ensures AllWithin(w, region) ==> AllWithin(MergeFrom(w), region)
    decreases |w|
  {
    var d := Drain(w);
    DrainLaws(w, region);
    if d.1 {
      MergeLaws(d.0, region);
      var m := MergeFrom(d.0);
      forall b | b in w
        ensures Covered(b, m)
      {
        var o :| o in d.0 && b.Within(o);
        var o2 :| o2 in m && o.Within(o2);
      }
    }
  }

  // ---------------------------------------------------------------- mapping back to the page

  /** The page `Box(0, 0, pw, ph)`. */
  function Page(pw: int, ph: int): Box { Box(0, 0, pw, ph) }

  /** A box moved by minus the offset. */
  function Moved(b: Box, ox: int, oy: int): Box { Box(b.x0 - ox, b.y0 - oy, b.x1 - ox, b.y1 - oy) }

  /**
   * One box of `_map_boxes_to_page`: moved by minus the offset and clamped
   * to the page; an empty result is dropped. What remains is the largest
   * box inside both the moved box and the page, and it is dropped exactly
   * when no box of positive area lies inside both.
   */
  function Localize(b: Box, pw: int, ph: int, ox: int, oy: int): (r: Option<Box>)
    ensures r.Some? ==>
              r.value.x0 < r.value.x1 && r.value.y0 < r.value.y1
              && r.value.Within(Moved(b, ox, oy)) && r.value.Within(Page(pw, ph))
              && forall o: Box :: o.Within(Moved(b, ox, oy)) && o.Within(Page(pw, ph)) ==> o.Within(r.value)
    ensures r.None? ==>
              forall o: Box :: o.Within(Moved(b, ox, oy)) && o.Within(Page(pw, ph)) ==> o.x1 <= o.x0 || o.y1 <= o.y0
  {
    var x1 := MaxI(0, b.x0 - ox);
    var y1 := MaxI(0, b.y0 - oy);
    var x2 := MinI(pw, b.x1 - ox);
    var y2 := MinI(ph, b.y1 - oy);
    if x2 <= x1 || y2 <= y1 then None else Some(Box(x1, y1, x2, y2))
  }

  /** `_map_boxes_to_page` as a function: the localised boxes that survive, in order. */
  function MapBoxes(boxes: seq<Box>, pw: int, ph: int, ox: int, oy: int): (r: seq<Box>)
    ensures |r| <= |boxes|
    ensures forall c :: c in r ==> exists b :: b in boxes && Localize(b, pw, ph, ox, oy) == Some(c)
    ensures forall b :: b in boxes && Localize(b, pw, ph, ox, oy).Some? ==> Localize(b, pw, ph, ox, oy).value in r
  {
    if boxes == [] then []
    else
      var pre := boxes[..|boxes| - 1];
      var k := MapBoxes(pre, pw, ph, ox, oy);
      var b := boxes[|boxes| - 1];
      assert forall c :: c in boxes <==> c in pre || c == b;
      match Localize(b, pw, ph, ox, oy)
      case None => k
      case Some(c) => k + [c]
  }

  /** Mapping keeps order: the boxes of a concatenation map to the concatenation of the mapped parts. */
  lemma {:induction false} MapBoxesAppend(a: seq<Box>, b: seq<Box>, pw: int, ph: int, ox: int, oy: int)
    ensures MapBoxes(a + b, pw, ph, ox, oy) == MapBoxes(a, pw, ph, ox, oy) + MapBoxes(b, pw, ph, ox, oy)
    decreases |b|
  {
    if b == [] {
      assert a + b == a;
    } else {
      var b' := b[..|b| - 1];
      assert (a + b)[..|a + b| - 1] == a + b';
      assert (a + b)[|a + b| - 1] == b[|b| - 1];
      MapBoxesAppend(a, b', pw, ph, ox, oy);
    }
  }

  /** `_map_boxes_to_page`. */
  method MapBoxesToPage(boxes: seq<Box>, pageSize: (int, int), offset: (int, int)) returns (mapped: seq<Box>)
    ensures mapped == MapBoxes(boxes, pageSize.0, pageSize.1, offset.0, offset.1)
  {
    var (pw, ph) := pageSize;
    var (ox, oy) := offset;
    mapped := [];
    for i := 0 to |boxes|
      invariant mapped == MapBoxes(boxes[..i], pw, ph, ox, oy)
    {
      assert boxes[..i + 1][..i] == boxes[..i];
      var b := boxes[i];
      var x1 := MaxI(0, b.x0 - ox);
      var y1 := MaxI(0, b.y0 - oy);
      var x2 := MinI(pw, b.x1 - ox);
      var y2 := MinI(ph, b.y1 - oy);
      assert Localize(b, pw, ph, ox, oy) == if x2 <= x1 || y2 <= y1 then None else Some(Box(x1, y1, x2, y2));
      assert MapBoxes(boxes[..i + 1], pw, ph, ox, oy)
          == match Localize(b, pw, ph, ox, oy) case None => mapped case Some(c) => mapped + [c];
      if x2 <= x1 || y2 <= y1 {
        continue;
      }
      mapped := mapped + [Box(x1, y1, x2, y2)];
    }
    assert boxes[..|boxes|] == boxes;
  }

  // ---------------------------------------------------------------- points

  /** A pixel box in points: every coordinate times 72 / 300. */
  function ToPoints(b: Box): (r: RRect)
    ensures r.x0 * 300.0 == b.x0 as real * 72.0 && r.y0 * 300.0 == b.y0 as real * 72.0
    ensures r.x1 * 300.0 == b.x1 as real * 72.0 && r.y1 * 300.0 == b.y1 as real * 72.0
  {
    RRect(b.x0 as real * PixelToPoint, b.y0 as real * PixelToPoint, b.x1 as real * PixelToPoint, b.y1 as real * PixelToPoint)
  }

  /** Scaling to points keeps containment, so a box on the page in pixels lands on the page in points. */
  lemma ToPointsWithin(a: Box, o: Box)
    requires a.Within(o)
    ensures ToPoints(a).Within(ToPoints(o))
  {
  }

  /** The rectangles drawn on one page: the merged boxes mapped to the page and scaled to points. */
  function PageRects(raw: seq<Box>, size: (int, int), offset: (int, int)): seq<RRect> {
    var local := MapBoxes(MergeFrom(raw), size.0, size.1, offset.0, offset.1);
    seq(|local|, k requires 0 <= k < |local| => ToPoints(local[k]))
  }

  /** Every rectangle drawn lies on its page, in points, and has positive width and height. */
  lemma PageRectsInside(raw: seq<Box>, size: (int, int), offset: (int, int))
    ensures forall r :: r in PageRects(raw, size, offset) ==>
              r.Within(ToPoints(Page(size.0, size.1))) && r.x0 < r.x1 && r.y0 < r.y1
  {
    var local := MapBoxes(MergeFrom(raw), size.0, size.1, offset.0, offset.1);
    var rs := PageRects(raw, size, offset);
    forall r | r in rs
      ensures r.Within(ToPoints(Page(size.0, size.1))) && r.x0 < r.x1 && r.y0 < r.y1
    {
      var k :| 0 <= k < |rs| && rs[k] == r;
      assert local[k] in local;
      ToPointsWithin(local[k], Page(size.0, size.1));
    }
  }

  /**
   * The rectangle part of `run_compare`: a ValueError when either document
   * has no pages, otherwise the rectangles drawn on the old and on the new
   * first page. The candidate boxes of each canvas are passed in.
   */
  method RunCompare(oldPageCount: nat, newPageCount: nat, oldImg: array2<int>, newImg: array2<int>,
                    oldRaw: seq<Box>, newRaw: seq<Box>)
    returns (r: Result<(seq<RRect>, seq<RRect>)>)
    ensures oldPageCount == 0 ==> r == Err(ValueError("OLD PDF has no pages"))
    ensures oldPageCount != 0 && newPageCount == 0 ==> r == Err(ValueError("NEW PDF has no pages"))
    ensures oldPageCount != 0 && newPageCount != 0 ==>
              var hh := MaxI(oldImg.Length0, newImg.Length0);
              var ww := MaxI(oldImg.Length1, newImg.Length1);
              r == Ok((PageRects(oldRaw, (oldImg.Length1, oldImg.Length0),
                                 (Canvas.CenterOffset(ww, oldImg.Length1), Canvas.CenterOffset(hh, oldImg.Length0))),
                       PageRects(newRaw, (newImg.Length1, newImg.Length0),
                                 (Canvas.CenterOffset(ww, newImg.Length1), Canvas.CenterOffset(hh, newImg.Length0)))))
  {
    if oldPageCount == 0 {
      return Err(ValueError("OLD PDF has no pages"));
    }
    if newPageCount == 0 {
      return Err(ValueError("NEW PDF has no pages"));
    }
    var oldCanvas, oldOffset, newCanvas, newOffset := Canvases(oldImg, newImg);
    var oldMerged := MergeBoxes(oldRaw);
    var newMerged := MergeBoxes(newRaw);
    var oldLocal := MapBoxesToPage(oldMerged, (oldImg.Length1, oldImg.Length0), oldOffset);
    var newLocal := MapBoxesToPage(newMerged, (newImg.Length1, newImg.Length0), newOffset);
    var oldRects := seq(|oldLocal|, k requires 0 <= k < |oldLocal| => ToPoints(oldLocal[k]));
    var newRects := seq(|newLocal|, k requires 0 <= k < |newLocal| => ToPoints(newLocal[k]));
    return Ok((oldRects, newRects));
  }
}
