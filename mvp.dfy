/**
 * compareset_mvp.py: the first page of each drawing is rendered at 300 dpi
 * and centred on a common black canvas. The difference boxes OpenCV finds
 * there, as (x, y, w, h) rectangles, are merged while any two touch. The
 * same merged boxes are then clipped onto each page with that page's own
 * offset and size, and converted to points.
 */
module Mvp {
  import opened Wrappers
  import opened Geometry
  import Canvas

  const Dpi: int := 300
  const MinArea: int := 36

  /** `zoom_from_dpi`: pixels per point. */
  function ZoomFromDpi(dpi: int): (z: real)
    ensures z * 72.0 == dpi as real
  {
    dpi as real / 72.0
  }

  /** A box as OpenCV gives it: top-left corner, width and height. */
  datatype Rect = Rect(x: int, y: int, w: int, h: int)
  {
    function X2(): int { x + w }
    function Y2(): int { y + h }
    /** this lies inside `o` */
    predicate Inside(o: Rect) {
      o.x <= x && o.y <= y && X2() <= o.X2() && Y2() <= o.Y2()
    }
  }

  // ---------------------------------------------------------------- canvases

  /**
   * `letterbox_to_common_canvas`: two black canvases of the larger height
   * and width, each image centred on its own, with the offsets (x, y) and
   * the sizes (w, h).
   */
  method Letterbox(imgA: array2<int>, imgB: array2<int>)
    returns (canvasA: array2<int>, canvasB: array2<int>, offA: (nat, nat), offB: (nat, nat), sizeA: (nat, nat), sizeB: (nat, nat))
    ensures fresh(canvasA) && fresh(canvasB)
    ensures var hh := MaxI(imgA.Length0, imgB.Length0);
            var ww := MaxI(imgA.Length1, imgB.Length1);
            canvasA.Length0 == hh && canvasA.Length1 == ww && canvasB.Length0 == hh && canvasB.Length1 == ww
            && offA == (Canvas.CenterOffset(ww, imgA.Length1), Canvas.CenterOffset(hh, imgA.Length0))
            && offB == (Canvas.CenterOffset(ww, imgB.Length1), Canvas.CenterOffset(hh, imgB.Length0))
            && (forall y, x :: 0 <= y < hh && 0 <= x < ww ==>
                  canvasA[y, x] == Canvas.Placed(imgA, offA.0, offA.1, 0, y, x)
                  && canvasB[y, x] == Canvas.Placed(imgB, offB.0, offB.1, 0, y, x))
    ensures sizeA == (imgA.Length1, imgA.Length0) && sizeB == (imgB.Length1, imgB.Length0)
  {
    var hh := MaxI(imgA.Length0, imgB.Length0);
    var ww := MaxI(imgA.Length1, imgB.Length1);
    var xa, ya, xb, yb;
    canvasA, xa, ya := Canvas.Center(imgA, hh, ww, 0);
    canvasB, xb, yb := Canvas.Center(imgB, hh, ww, 0);
    offA, offB := (xa, ya), (xb, yb);
    sizeA, sizeB := (imgA.Length1, imgA.Length0), (imgB.Length1, imgB.Length0);
  }

  /** The area filter of `compute_diff_boxes`: the contour boxes of at least `MinArea` pixels, in order. */
  function KeepLarge(bounds: seq<Rect>): (r: seq<Rect>)
    ensures forall b :: b in r <==> b in bounds && b.w * b.h >= MinArea
  {
    if bounds == [] then []
    else
      var k := KeepLarge(bounds[..|bounds| - 1]);
      var b := bounds[|bounds| - 1];
      assert forall c :: c in bounds <==> c in bounds[..|bounds| - 1] || c == b;
      if b.w * b.h >= MinArea then k + [b] else k
  }

  // ---------------------------------------------------------------- touching and merging

  /** `rects_overlap_or_touch`: no gap on either axis; shared edges count. */
  predicate Touch(a: Rect, b: Rect) {
    !(a.X2() < b.x || b.X2() < a.x) && !(a.Y2() < b.y || b.Y2() < a.y)
  }

  /** `merge_two`: the least rectangle holding both. */
  function MergeTwo(a: Rect, b: Rect): (r: Rect)
    ensures a.Inside(r) && b.Inside(r)
    ensures forall o: Rect :: a.Inside(o) && b.Inside(o) ==> r.Inside(o)
  {
    var nx1 := MinI(a.x, b.x);
    var ny1 := MinI(a.y, b.y);
    var nx2 := MaxI(a.X2(), b.X2());
    var ny2 := MaxI(a.Y2(), b.Y2());
    Rect(nx1, ny1, nx2 - nx1, ny2 - ny1)
  }

  /** Touching is symmetric, and merging commutes. */
  lemma TouchMergeSym(a: Rect, b: Rect)
    ensures Touch(a, b) == Touch(b, a)
    ensures MergeTwo(a, b) == MergeTwo(b, a)
  {
  }

  /** The number of unmarked rectangles at index `i` and beyond. */
  function Free(used: seq<bool>, i: nat): nat
    decreases |used| - i
  {
    if i >= |used| then 0 else (if used[i] then 0 else 1) + Free(used, i + 1)
  }

  /** Marking an index before `i` leaves the count from `i` alone. */
  lemma {:induction false} FreeAbove(used: seq<bool>, i: nat, k: nat)
    requires k < i && k < |used|
    ensures Free(used[k := true], i) == Free(used, i)
    decreases |used| - i
  {
    if i < |used| {
      FreeAbove(used, i + 1, k);
    }
  }

  /** With nothing marked, every index from `i` on is free. */
  lemma {:induction false} FreeNone(n: nat, i: nat)
    requires i <= n
    ensures Free(seq(n, _ => false), i) == n - i
    decreases n - i
  {
    if i < n {
      FreeNone(n, i + 1);
    }
  }

  /** The state of one pass's inner loop: the marks, the growing rectangle and whether anything merged. */
  datatype Scan = Scan(used: seq<bool>, r: Rect, merged: bool)

  /** The inner loop of `merge_touching_rects` from `j` on: each unmarked rectangle touching `r` is merged into it and marked. */
  function Absorb(rects: seq<Rect>, used: seq<bool>, j: nat, r: Rect, merged: bool): (s: Scan)
    requires |used| == |rects| && j <= |rects|
    ensures |s.used| == |rects|
    ensures forall k :: 0 <= k < j ==> s.used[k] == used[k]
    ensures forall k :: 0 <= k < |rects| && used[k] ==> s.used[k]
    ensures merged ==> s.merged
    ensures Free(s.used, j) + (if s.merged && !merged then 1 else 0) <= Free(used, j)
    decreases |rects| - j
  {
    if j == |rects| then Scan(used, r, merged)
    else if used[j] then Absorb(rects, used, j + 1, r, merged)
    else if Touch(r, rects[j]) then
      FreeAbove(used, j + 1, j);
      Absorb(rects, used[j := true], j + 1, MergeTwo(r, rects[j]), true)
    else Absorb(rects, used, j + 1, r, merged)
  }

  /** One pass of `merge_touching_rects` from index `i` on, appending to `out`. */
  function PassFrom(rects: seq<Rect>, used: seq<bool>, i: nat, out: seq<Rect>, merged: bool): (p: (seq<Rect>, bool))
    requires |used| == |rects| && i <= |rects|
    ensures |p.0| + (if p.1 && !merged then 1 else 0) <= |out| + Free(used, i)
    ensures merged ==> p.1
    decreases |rects| - i
  {
    if i == |rects| then (out, merged)
    else if used[i] then PassFrom(rects, used, i + 1, out, merged)
    else
      var s := Absorb(rects, used, i + 1, rects[i], merged);
      FreeAbove(s.used, i + 1, i);
      PassFrom(rects, s.used[i := true], i + 1, out + [s.r], s.merged)
  }

  /** One pass over all rectangles, none marked: the merged list and whether anything merged. */
  function Pass(rects: seq<Rect>): (p: (seq<Rect>, bool))
    ensures |p.0| + (if p.1 then 1 else 0) <= |rects|
  {
    FreeNone(|rects|, 0);
    PassFrom(rects, seq(|rects|, _ => false), 0, [], false)
  }

  /** `merge_touching_rects`: passes repeat while one merged something; each such pass shortens the list. */
  function MergeTouching(rects: seq<Rect>): (r: seq<Rect>)
    ensures |r| <= |rects|
    decreases |rects|
  {
    var p := Pass(rects);
    if p.1 then MergeTouching(p.0) else p.0
  }

  /** The inner `for j` loop of one pass, growing `rects[i]`. */
  method AbsorbLoop(rects: seq<Rect>, used: seq<bool>, i: nat, merged: bool)
    returns (used': seq<bool>, r: Rect, merged': bool)
    requires |used| == |rects| && i < |rects|
    ensures Scan(used', r, merged') == Absorb(rects, used, i + 1, rects[i], merged)
  {
    used', r, merged' := used, rects[i], merged;
    for j := i + 1 to |rects|
      invariant |used'| == |rects|
      invariant Absorb(rects, used', j, r, merged') == Absorb(rects, used, i + 1, rects[i], merged)
    {
      if used'[j] {
        continue;
      }
      var s := rects[j];
      if Touch(r, s) {
        r := MergeTwo(r, s);
        used' := used'[j := true];
        merged' := true;
      }
    }
  }

  /** One pass, as the body of the outer `while merged` loop runs it. */
  method PassOnce(rects: seq<Rect>) returns (newRects: seq<Rect>, merged: bool)
    ensures (newRects, merged) == Pass(rects)
  {
    merged := false;
    newRects := [];
    var used := seq(|rects|, _ => false);
    for i := 0 to |rects|
      invariant |used| == |rects|
      invariant PassFrom(rects, used, i, newRects, merged) == Pass(rects)
    {
      if used[i] {
        continue;
      }
      var r;
      used, r, merged := AbsorbLoop(rects, used, i, merged);
      used := used[i := true];
      newRects := newRects + [r];
    }
  }

  /** `merge_touching_rects`. */
  method MergeTouchingRects(rects: seq<Rect>) returns (result: seq<Rect>)
    ensures result == MergeTouching(rects)
  {
    if |rects| == 0 {
      return [];
    }
    result := rects;
    var merged := true;
    while merged
      invariant merged ==> MergeTouching(result) == MergeTouching(rects)
      invariant !merged ==> result == MergeTouching(rects)
      decreases if merged then |result| + 1 else 0
    {
      var next, m := PassOnce(result);
      result, merged := next, m;
    }
  }

  /** Along the inner loop the rectangle only grows, and every rectangle it marks lies inside the final one. */
  lemma {:induction false} AbsorbLaws(rects: seq<Rect>, used: seq<bool>, j: nat, r: Rect, merged: bool)
    requires |used| == |rects| && j <= |rects|
    ensures var s := Absorb(rects, used, j, r, merged);
            r.Inside(s.r)
            && (forall k :: 0 <= k < |rects| && s.used[k] && !used[k] ==> rects[k].Inside(s.r))
            && (!s.merged ==> s.used == used && s.r == r
                              && forall k :: j <= k < |rects| && !used[k] ==> !Touch(r, rects[k]))
    decreases |rects| - j
  {
    if j < |rects| {
      if used[j] {
        AbsorbLaws(rects, used, j + 1, r, merged);
      } else if Touch(r, rects[j]) {
        var r' := MergeTwo(r, rects[j]);
        AbsorbLaws(rects, used[j := true], j + 1, r', true);
      } else {
        AbsorbLaws(rects, used, j + 1, r, merged);
      }
    }
  }

  /** A pass that finds nothing to merge returns its input, and then no two of its rectangles touch. */
  lemma {:induction false} PassQuiet(rects: seq<Rect>, used: seq<bool>, i: nat, out: seq<Rect>)
    requires |used| == |rects| && i <= |rects|
    requires forall k :: 0 <= k < |rects| ==> (used[k] <==> k < i)
    requires out == rects[..i]
    requires forall a, b :: 0 <= a < i && a < b < |rects| ==> !Touch(rects[a], rects[b])
    requires !PassFrom(rects, used, i, out, false).1
    ensures PassFrom(rects, used, i, out, false).0 == rects
    ensures forall a, b :: 0 <= a < b < |rects| ==> !Touch(rects[a], rects[b])
    decreases |rects| - i
  {
    if i == |rects| {
      assert rects[..i] == rects;
    } else {
      var s := Absorb(rects, used, i + 1, rects[i], false);
      AbsorbLaws(rects, used, i + 1, rects[i], false);
      assert !s.merged;
      assert rects[..i + 1] == out + [rects[i]];
      PassQuiet(rects, s.used[i := true], i + 1, out + [rects[i]]);
    }
  }

  /** `x` lies inside some rectangle of `s`. */
  predicate Covered(x: Rect, s: seq<Rect>) {
    exists o :: o in s && x.Inside(o)
  }

  /** After a pass every rectangle lies inside some rectangle of the result. */
  lemma {:induction false} PassCovers(rects: seq<Rect>, used: seq<bool>, i: nat, out: seq<Rect>, merged: bool)
    requires |used| == |rects| && i <= |rects|
    requires forall k :: 0 <= k < i ==> used[k]
    requires forall k :: 0 <= k < |rects| && used[k] ==> Covered(rects[k], out)
    ensures forall k :: 0 <= k < |rects| ==> Covered(rects[k], PassFrom(rects, used, i, out, merged).0)
    decreases |rects| - i
  {
    if i < |rects| {
      if used[i] {
        PassCovers(rects, used, i + 1, out, merged);
      } else {
        var s := Absorb(rects, used, i + 1, rects[i], merged);
        AbsorbLaws(rects, used, i + 1, rects[i], merged);
        var u := s.used[i := true];
        var out' := out + [s.r];
        forall k | 0 <= k < |rects| && u[k]
          ensures Covered(rects[k], out')
        {
          if k == i || !used[k] {
            assert s.r in out';
          } else {
            var o :| o in out && rects[k].Inside(o);
            assert o in out';
          }
        }
        PassCovers(rects, u, i + 1, out', s.merged);
      }
    } else {
      assert forall k :: 0 <= k < |rects| ==> used[k];
    }
  }

  /** The rectangle `Inside` relation is transitive. */
  lemma InsideTrans(a: Rect, b: Rect, c: Rect)
    requires a.Inside(b) && b.Inside(c)
    ensures a.Inside(c)
  {
  }

  /**
   * `merge_touching_rects` leaves no two rectangles touching, places every
   * input inside some output, and maps the empty list to itself.
   */
  lemma {:induction false} MergeLaws(rects: seq<Rect>)
    ensures var m := MergeTouching(rects);
            (forall a, b :: 0 <= a < |m| && 0 <= b < |m| && a != b ==> !Touch(m[a], m[b]))
            && (forall k :: 0 <= k < |rects| ==> Covered(rects[k], m))
            && (rects == [] ==> m == [])
    decreases |rects|
  {
    var p := Pass(rects);
    var none := seq(|rects|, _ => false);
    PassCovers(rects, none, 0, [], false);
    if p.1 {
      MergeLaws(p.0);
      var m := MergeTouching(p.0);
      forall k | 0 <= k < |rects|
        ensures Covered(rects[k], m)
      {
        var o1 :| o1 in p.0 && rects[k].Inside(o1);
        var j :| 0 <= j < |p.0| && p.0[j] == o1;
        var o2 :| o2 in m && p.0[j].Inside(o2);
        InsideTrans(rects[k], o1, o2);
      }
    } else {
      assert rects[..0] == [];
      PassQuiet(rects, none, 0, []);
      forall a, b | 0 <= a < |rects| && 0 <= b < |rects| && a != b
        ensures !Touch(rects[a], rects[b])
      {
        if b < a {
          TouchMergeSym(rects[a], rects[b]);
        }
      }
    }
  }

  // ---------------------------------------------------------------- back to the pages

  /**
   * `clip_box_to_page_pixels`: None exactly when the box, moved by the
   * page's offset, lies wholly outside the page. Otherwise the result is the
   * largest rectangle inside both the page and the moved box.
   */
  function ClipBox(box: Rect, pw: int, ph: int, xoff: int, yoff: int): (r: Option<Rect>)
    ensures var x, y := box.x - xoff, box.y - yoff;
            r.None? <==> x + box.w <= 0 || y + box.h <= 0 || x >= pw || y >= ph
    ensures r.Some? ==>
              var moved := Rect(box.x - xoff, box.y - yoff, box.w, box.h);
              var page := Rect(0, 0, pw, ph);
              r.value.Inside(moved) && r.value.Inside(page)
              && forall o: Rect :: o.Inside(moved) && o.Inside(page) ==> o.Inside(r.value)
    ensures r.Some? && box.w > 0 && box.h > 0 && pw > 0 && ph > 0 ==> r.value.w > 0 && r.value.h > 0
  {
    var x := box.x - xoff;
    var y := box.y - yoff;
    var x2 := x + box.w;
    var y2 := y + box.h;
    if x2 <= 0 || y2 <= 0 || x >= pw || y >= ph then None
    else
      var nx := MaxI(0, x);
      var ny := MaxI(0, y);
      var nx2 := MinI(pw, x2);
      var ny2 := MinI(ph, y2);
      Some(Rect(nx, ny, nx2 - nx, ny2 - ny))
  }

  /** Each box clipped to the page, or None when it misses it. */
  function Clips(boxes: seq<Rect>, pw: int, ph: int, xoff: int, yoff: int): seq<Option<Rect>> {
    seq(|boxes|, k requires 0 <= k < |boxes| => ClipBox(boxes[k], pw, ph, xoff, yoff))
  }

  /** The boxes that land on a page, clipped to it, in order. */
  function LocalBoxes(boxes: seq<Rect>, pw: int, ph: int, xoff: int, yoff: int): (r: seq<Rect>)
    ensures |r| <= |boxes|
    ensures r == Somes(Clips(boxes, pw, ph, xoff, yoff))
    ensures forall o :: o in r ==> exists b :: b in boxes && ClipBox(b, pw, ph, xoff, yoff) == Some(o)
    ensures forall b :: b in boxes && ClipBox(b, pw, ph, xoff, yoff).Some? ==> ClipBox(b, pw, ph, xoff, yoff).value in r
  {
    if boxes == [] then []
    else
      var pre := boxes[..|boxes| - 1];
      var k := LocalBoxes(pre, pw, ph, xoff, yoff);
      var b := boxes[|boxes| - 1];
      assert forall c :: c in boxes <==> c in pre || c == b;
      assert Clips(boxes, pw, ph, xoff, yoff)[..|pre|] == Clips(pre, pw, ph, xoff, yoff);
      match ClipBox(b, pw, ph, xoff, yoff)
      case None => k
      case Some(c) => k + [c]
  }

  /** One rectangle in points: its pixel coordinates divided by the zoom. */
  function ToPoints(b: Rect, zoom: real): (r: RRect)
    requires zoom != 0.0
    ensures r.x0 * zoom == b.x as real && r.y0 * zoom == b.y as real
    ensures r.x1 * zoom == b.X2() as real && r.y1 * zoom == b.Y2() as real
  {
    var inv := 1.0 / zoom;
    RRect(b.x as real * inv, b.y as real * inv, (b.x + b.w) as real * inv, (b.y + b.h) as real * inv)
  }

  /** `pixels_to_pdf_rects`: a ZeroDivisionError for a zero zoom, else one rectangle per box, in order. */
  method PixelsToPdfRects(rects: seq<Rect>, zoom: real) returns (r: Result<seq<RRect>>)
    ensures zoom == 0.0 <==> r.Err?
    ensures r.Err? ==> r.error == ZeroDivisionError
    ensures r.Ok? ==> |r.value| == |rects| && forall k :: 0 <= k < |rects| ==> r.value[k] == ToPoints(rects[k], zoom)
  {
    if zoom == 0.0 {
      return Err(ZeroDivisionError);
    }
    var inv := 1.0 / zoom;
    var pdfRects: seq<RRect> := [];
    for k := 0 to |rects|
      invariant |pdfRects| == k && forall i :: 0 <= i < k ==> pdfRects[i] == ToPoints(rects[i], zoom)
    {
      var (x, y, w, h) := (rects[k].x, rects[k].y, rects[k].w, rects[k].h);
      pdfRects := pdfRects + [RRect(x as real * inv, y as real * inv, (x + w) as real * inv, (y + h) as real * inv)];
    }
    r := Ok(pdfRects);
  }

  /** The rectangles one page receives: the merged canvas boxes clipped with its offset and size, in points. */
  function PageRects(merged: seq<Rect>, size: (nat, nat), off: (nat, nat)): (rs: seq<RRect>) {
    var local := LocalBoxes(merged, size.0, size.1, off.0, off.1);
    seq(|local|, k requires 0 <= k < |local| => ToPoints(local[k], ZoomFromDpi(Dpi)))
  }

  /** The clipping loop of `compare_first_pages` for one page. */
  method MapToPage(merged: seq<Rect>, pw: int, ph: int, xoff: int, yoff: int) returns (local: seq<Rect>)
    ensures local == LocalBoxes(merged, pw, ph, xoff, yoff)
  {
    local := [];
    for k := 0 to |merged|
      invariant local == LocalBoxes(merged[..k], pw, ph, xoff, yoff)
    {
      assert merged[..k + 1][..k] == merged[..k];
      var clipped := ClipBox(merged[k], pw, ph, xoff, yoff);
      if clipped.Some? {
        local := local + [clipped.value];
      }
    }
    assert merged[..|merged|] == merged;
  }

  /**
   * `compare_first_pages` after rendering: the contour boxes OpenCV finds on
   * the two canvases (`bounds`) are filtered by area and merged once, and
   * the one merged list is mapped onto each page with that page's offset
   * and size.
   */
  method CompareFirstPages(imgOld: array2<int>, imgNew: array2<int>, bounds: seq<Rect>)
    returns (rectsOld: seq<RRect>, rectsNew: seq<RRect>)
    ensures var merged := MergeTouching(KeepLarge(bounds));
            var hh := MaxI(imgOld.Length0, imgNew.Length0);
            var ww := MaxI(imgOld.Length1, imgNew.Length1);
            rectsOld == PageRects(merged, (imgOld.Length1, imgOld.Length0),
                                  (Canvas.CenterOffset(ww, imgOld.Length1), Canvas.CenterOffset(hh, imgOld.Length0)))
            && rectsNew == PageRects(merged, (imgNew.Length1, imgNew.Length0),
                                     (Canvas.CenterOffset(ww, imgNew.Length1), Canvas.CenterOffset(hh, imgNew.Length0)))
  {
    var canOld, canNew, offOld, offNew, sizeOld, sizeNew := Letterbox(imgOld, imgNew);
    var boxes := KeepLarge(bounds);
    var boxesMerged := MergeTouchingRects(boxes);
    var z := ZoomFromDpi(Dpi);
    var localOld := MapToPage(boxesMerged, sizeOld.0, sizeOld.1, offOld.0, offOld.1);
    var localNew := MapToPage(boxesMerged, sizeNew.0, sizeNew.1, offNew.0, offNew.1);
    var convOld := PixelsToPdfRects(localOld, z);
    var convNew := PixelsToPdfRects(localNew, z);
    rectsOld, rectsNew := convOld.value, convNew.value;
  }
}
