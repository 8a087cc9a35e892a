/**
 * The raster-guided comparison of pdf_raster_diff.py.  Both pages are
 * rendered at one resolution, the new render is shifted onto the old one,
 * and the difference boxes OpenCV finds are thinned by non-maximum
 * suppression, optionally cleared from a title block and mapped back to PDF
 * points. The same list of rectangles marks both drawings.
 * Rendering, the Fourier transforms and the OpenCV search are passed in as
 * values.
 */
module RasterDiff {
  import opened Wrappers
  import opened Geometry
  import CompareMasks
  import CompareMerge
  import opened Sorting

  // ---------------------------------------------------------------- shifting

  /** The pixel `_shift_image` leaves at (y, x): the source pixel (y + dy, x + dx) when it lies in the image, white otherwise. */
  function ShiftedPixel(img: array2<int>, dx: int, dy: int, y: int, x: int): int
    reads img
  {
    if 0 <= y + dy < img.Length0 && 0 <= x + dx < img.Length1 then img[y + dy, x + dx] else 255
  }

  /** `a[lo:hi, :] = 255`. */
  method FillRows(a: array2<int>, lo: int, hi: int)
    requires 0 <= lo <= hi <= a.Length0
    modifies a
    ensures forall i, j :: 0 <= i < a.Length0 && 0 <= j < a.Length1 ==>
              a[i, j] == if lo <= i < hi then 255 else old(a[i, j])
  {
    var y := lo;
    while y < hi
      invariant lo <= y <= hi
      invariant forall i, j :: 0 <= i < a.Length0 && 0 <= j < a.Length1 ==>
                  a[i, j] == if lo <= i < y then 255 else old(a[i, j])
    {
      var x := 0;
      while x < a.Length1
        invariant 0 <= x <= a.Length1
        invariant forall i, j :: 0 <= i < a.Length0 && 0 <= j < a.Length1 ==>
                    a[i, j] == if lo <= i < y || (i == y && j < x) then 255 else old(a[i, j])
      {
        a[y, x] := 255;
        x := x + 1;
      }
      y := y + 1;
    }
  }

  /** `a[:, lo:hi] = 255`. */
  method FillCols(a: array2<int>, lo: int, hi: int)
    requires 0 <= lo <= hi <= a.Length1
    modifies a
    ensures forall i, j :: 0 <= i < a.Length0 && 0 <= j < a.Length1 ==>
              a[i, j] == if lo <= j < hi then 255 else old(a[i, j])
  {
    var y := 0;
    while y < a.Length0
      invariant 0 <= y <= a.Length0
      invariant forall i, j :: 0 <= i < a.Length0 && 0 <= j < a.Length1 ==>
                  a[i, j] == if i < y && lo <= j < hi then 255 else old(a[i, j])
    {
      var x := lo;
      while x < hi
        invariant lo <= x <= hi
        invariant forall i, j :: 0 <= i < a.Length0 && 0 <= j < a.Length1 ==>
                    a[i, j] == if (i < y || (i == y && j < x)) && lo <= j < hi then 255 else old(a[i, j])
      {
        a[y, x] := 255;
        x := x + 1;
      }
      y := y + 1;
    }
  }

  /** The pixel `np.roll` by (-dy, -dx) moves to (y, x): indices wrap round. */
  function Rolled(img: array2<int>, dx: int, dy: int, y: nat, x: nat): int
    requires y < img.Length0 && x < img.Length1
    reads img
  {
    img[(y + dy) % img.Length0, (x + dx) % img.Length1]
  }

  /** The rows (or columns) `_shift_image` paints white for a shift `d` along an axis of length `n`, as the clamped slice bounds. */
  function Band(d: int, n: nat): (int, int) {
    if d > 0 then (MaxI(0, n - d), n) else if d < 0 then (0, MinI(n, -d)) else (0, 0)
  }

  /** `a` is the rolled image with the rows in `rows` and the columns in `cols` painted white. */
  ghost predicate Painted(a: array2<int>, img: array2<int>, dx: int, dy: int, rows: (int, int), cols: (int, int))
    reads a, img
  {
    a.Length0 == img.Length0 && a.Length1 == img.Length1
    && forall i, j :: 0 <= i < a.Length0 && 0 <= j < a.Length1 ==>
         a[i, j] == if rows.0 <= i < rows.1 || cols.0 <= j < cols.1 then 255 else Rolled(img, dx, dy, i, j)
  }

  /** Along one axis, the painted band is exactly where the source index falls outside, and elsewhere no index wraps. */
  lemma BandLaws(p: int, d: int, n: nat)
    requires 0 <= p < n
    ensures Band(d, n).0 <= p < Band(d, n).1 <==> !(0 <= p + d < n)
    ensures 0 <= p + d < n ==> (p + d) % n == p + d
  {
    if d > 0 {
      assert Band(d, n) == (MaxI(0, n - d), n);
    } else if d < 0 {
      assert Band(d, n) == (0, MinI(n, -d));
    }
    if 0 <= p + d < n {
      ModSmall(p + d, n);
    }
  }

  /** An index already inside the axis is its own remainder. */
  lemma ModSmall(k: int, n: int)
    requires 0 <= k < n
    ensures k % n == k
  {
  }

  /** Painting both bands leaves exactly the shifted image. */
  lemma PaintedShift(a: array2<int>, img: array2<int>, dx: int, dy: int)
    requires Painted(a, img, dx, dy, Band(dy, img.Length0), Band(dx, img.Length1))
    ensures forall y, x :: 0 <= y < img.Length0 && 0 <= x < img.Length1 ==> a[y, x] == ShiftedPixel(img, dx, dy, y, x)
  {
    forall y, x | 0 <= y < img.Length0 && 0 <= x < img.Length1
      ensures a[y, x] == ShiftedPixel(img, dx, dy, y, x)
    {
      BandLaws(y, dy, img.Length0);
      BandLaws(x, dx, img.Length1);
    }
  }

  /**
   * `_shift_image`: `np.roll` by (-dy, -dx), then the rows and columns that
   * wrapped round are painted white. Whatever the shift, every pixel is the
   * source pixel (y + dy, x + dx) when that lies in the image and 255
   * otherwise, so nothing wraps round.
   */
  method ShiftImage(img: array2<int>, dx: int, dy: int) returns (shifted: array2<int>)
    ensures fresh(shifted)
    ensures shifted.Length0 == img.Length0 && shifted.Length1 == img.Length1
    ensures forall y, x :: 0 <= y < img.Length0 && 0 <= x < img.Length1 ==>
              shifted[y, x] == ShiftedPixel(img, dx, dy, y, x)
  {
    var h, w := img.Length0, img.Length1;
    shifted := new int[h, w]((y: nat, x: nat) reads img requires y < h && x < w => Rolled(img, dx, dy, y, x));
    assert Painted(shifted, img, dx, dy, (0, 0), (0, 0));
    if dy > 0 {
      FillRows(shifted, MaxI(0, h - dy), h);
    } else if dy < 0 {
      FillRows(shifted, 0, MinI(h, -dy));
    }
    assert Painted(shifted, img, dx, dy, Band(dy, h), (0, 0));
    if dx > 0 {
      FillCols(shifted, MaxI(0, w - dx), w);
    } else if dx < 0 {
      FillCols(shifted, 0, MinI(w, -dx));
    }
    assert Painted(shifted, img, dx, dy, Band(dy, h), Band(dx, w));
    PaintedShift(shifted, img, dx, dy);
  }

  // ---------------------------------------------------------------- alignment

  /** The correlation peak at index `p` of an axis of length `n`, read as a shift: past the middle it wraps to a negative one. */
  function Unwrap(p: nat, n: nat): (r: int)
    ensures r == p || r == p - n
    ensures p < n ==> n / 2 - n < r <= n / 2
  {
    if p > n / 2 then p - n else p
  }

  /** What `align_images` returns: both images, the translation and the identity rotation and scale. */
  datatype Alignment = Alignment(alignedA: array2<int>, alignedB: array2<int>, dx: int, dy: int, rotation: real, scale: real)

  /**
   * `align_images` without OpenCV. Images of different shapes raise
   * ValueError, and so does numpy's transform of an empty image. Otherwise
   * the first image is copied and the second is shifted by the unwrapped
   * correlation peak (`peakY`, `peakX`), which the Fourier transforms give.
   */
  method AlignImages(imgA: array2<int>, imgB: array2<int>, peakY: nat, peakX: nat) returns (r: Result<Alignment>)
    ensures r.Err? <==> !CompareMasks.SameShape(imgA, imgB) || imgA.Length0 == 0 || imgA.Length1 == 0
    ensures !CompareMasks.SameShape(imgA, imgB) ==> r == Err(ValueError("Images must have the same shape for alignment"))
    ensures r.Ok? ==>
              var al := r.value;
              fresh(al.alignedA) && fresh(al.alignedB)
              && al.dy == Unwrap(peakY, imgA.Length0) && al.dx == Unwrap(peakX, imgA.Length1)
              && al.rotation == 0.0 && al.scale == 1.0
              && CompareMasks.SameShape(al.alignedA, imgA) && CompareMasks.SameShape(al.alignedB, imgA)
              && (forall y, x :: 0 <= y < imgA.Length0 && 0 <= x < imgA.Length1 ==>
                    al.alignedA[y, x] == imgA[y, x] && al.alignedB[y, x] == ShiftedPixel(imgB, al.dx, al.dy, y, x))
  {
    if imgA.Length0 != imgB.Length0 || imgA.Length1 != imgB.Length1 {
      return Err(ValueError("Images must have the same shape for alignment"));
    }
    if imgA.Length0 == 0 || imgA.Length1 == 0 {
      return Err(ValueError("Invalid number of FFT data points (0) specified."));
    }
    var dy: int := peakY;
    var dx: int := peakX;
    if dy > imgA.Length0 / 2 {
      dy := dy - imgA.Length0;
    }
    if dx > imgA.Length1 / 2 {
      dx := dx - imgA.Length1;
    }
    var alignedB := ShiftImage(imgB, dx, dy);
    var alignedA := new int[imgA.Length0, imgA.Length1]((y: nat, x: nat) reads imgA
      requires y < imgA.Length0 && x < imgA.Length1 => imgA[y, x]);
    r := Ok(Alignment(alignedA, alignedB, dx, dy, 0.0, 1.0));
  }

  // ---------------------------------------------------------------- IoU and suppression

  /**
   * `_iou` of this file, guarded twice: no overlap gives 0, and so would a
   * zero union. It agrees with the IoU of the raster engine on every pair.
   */
  function Iou(a: Box, b: Box): (r: real)
    ensures r == CompareMerge.Iou(a, b)
  {
    var inter := InterArea(a, b);
    InterBound(a, b);
    if inter == 0 then 0.0
    else
      var union := a.Area() + b.Area() - inter;
      if union != 0 then inter as real / union as real else 0.0
  }

  /** `_iou` is symmetric, lies in [0, 1] and is positive exactly when the boxes overlap with positive area. */
  lemma IouLaws(a: Box, b: Box)
    ensures Iou(a, b) == Iou(b, a)
    ensures 0.0 <= Iou(a, b) <= 1.0
    ensures Iou(a, b) > 0.0 <==> InterArea(a, b) > 0
  {
    CompareMerge.IouSym(a, b);
  }

  /** `r` has IoU at most `thr` with every box of `ks`. */
  predicate Fits(r: Box, ks: seq<Box>, thr: real) {
    forall q :: 0 <= q < |ks| ==> Iou(r, ks[q]) <= thr
  }

  /** What `_nms` keeps: each box in turn, unless it overlaps an already kept box by more than `thr`. */
  function Kept(rects: seq<Box>, thr: real): seq<Box> {
    if rects == [] then []
    else
      var k := Kept(rects[..|rects| - 1], thr);
      var r := rects[|rects| - 1];
      if Fits(r, k, thr) then k + [r] else k
  }

  /** `_nms`: one pass over the boxes, each tested against the boxes kept so far, stopping at the first clash. */
  method Nms(rects: seq<Box>, thr: real) returns (result: seq<Box>)
    ensures result == Kept(rects, thr)
  {
    result := [];
    for i := 0 to |rects|
      invariant result == Kept(rects[..i], thr)
    {
      assert rects[..i + 1][..i] == rects[..i];
      var r := rects[i];
      var keep := true;
      for j := 0 to |result|
        invariant keep ==> forall q :: 0 <= q < j ==> Iou(r, result[q]) <= thr
      {
        if Iou(r, result[j]) > thr {
          keep := false;
          break;
        }
      }
      if keep {
        result := result + [r];
      }
    }
    assert rects[..|rects|] == rects;
  }

  /** No two kept boxes, taken as later against earlier, overlap by more than `thr`. */
  predicate Separated(k: seq<Box>, thr: real) {
    forall i, j :: 0 <= i < j < |k| ==> Iou(k[j], k[i]) <= thr
  }

  /** The kept boxes are a subsequence of the input, pairwise within `thr`, with the first input kept. */
  lemma KeptShape(rects: seq<Box>, thr: real)
    ensures SubseqOf(Kept(rects, thr), rects)
    ensures Separated(Kept(rects, thr), thr)
    ensures rects != [] ==> Kept(rects, thr) != [] && Kept(rects, thr)[0] == rects[0]
  {
    KeptSubseq(rects, thr);
    KeptApart(rects, thr);
    KeptHead(rects, thr);
  }

  /** The kept boxes are the input with some boxes left out. */
  lemma {:induction false} KeptSubseq(rects: seq<Box>, thr: real)
    ensures SubseqOf(Kept(rects, thr), rects)
  {
    if rects != [] {
      var pre := rects[..|rects| - 1];
      KeptSubseq(pre, thr);
      var k := Kept(pre, thr);
      if Fits(rects[|rects| - 1], k, thr) {
        assert (k + [rects[|rects| - 1]])[..|k|] == k;
      }
    }
  }

  /** No kept box overlaps an earlier kept one by more than `thr`. */
  lemma {:induction false} KeptApart(rects: seq<Box>, thr: real)
    ensures Separated(Kept(rects, thr), thr)
  {
    if rects != [] {
      var pre := rects[..|rects| - 1];
      KeptApart(pre, thr);
      var k := Kept(pre, thr);
      var r := rects[|rects| - 1];
      if Fits(r, k, thr) {
        var k' := k + [r];
        forall i, j | 0 <= i < j < |k'|
          ensures Iou(k'[j], k'[i]) <= thr
        {
          if j < |k| {
            assert k'[j] == k[j] && k'[i] == k[i];
          } else {
            assert k'[j] == r && k'[i] == k[i];
          }
        }
      }
    }
  }

  /** A non-empty input keeps its first box, at the head. */
  lemma {:induction false} KeptHead(rects: seq<Box>, thr: real)
    ensures rects != [] ==> Kept(rects, thr) != [] && Kept(rects, thr)[0] == rects[0]
  {
    if rects != [] {
      var pre := rects[..|rects| - 1];
      KeptHead(pre, thr);
      var k := Kept(pre, thr);
      if pre == [] {
        assert k == [];
        assert Fits(rects[0], k, thr);
      } else {
        assert pre[0] == rects[0];
        assert Kept(rects, thr)[0] == k[0];
      }
    }
  }

  /** Every box `_nms` drops overlaps some kept box by more than `thr`. */
  lemma {:induction false} KeptCovers(rects: seq<Box>, thr: real)
    ensures forall x :: x in rects && x !in Kept(rects, thr) ==>
              exists q :: q in Kept(rects, thr) && Iou(x, q) > thr
  {
    if rects != [] {
      var pre := rects[..|rects| - 1];
      KeptCovers(pre, thr);
      var k := Kept(pre, thr);
      var r := rects[|rects| - 1];
      assert forall x :: x in k ==> x in Kept(rects, thr);
      forall x | x in rects && x !in Kept(rects, thr)
        ensures exists q :: q in Kept(rects, thr) && Iou(x, q) > thr
      {
        if x == r {
          assert !Fits(r, k, thr);
          var q :| 0 <= q < |k| && Iou(r, k[q]) > thr;
          assert k[q] in Kept(rects, thr);
        } else {
          assert x in pre by {
            var i :| 0 <= i < |rects| && rects[i] == x;
            assert i < |rects| - 1 && pre[i] == x;
          }
        }
      }
    }
  }

  /** A separated list passes `_nms` unchanged. */
  lemma {:induction false} KeptSeparated(k: seq<Box>, thr: real)
    requires Separated(k, thr)
    ensures Kept(k, thr) == k
  {
    if k != [] {
      var pre := k[..|k| - 1];
      assert Separated(pre, thr);
      KeptSeparated(pre, thr);
      assert Fits(k[|k| - 1], pre, thr);
      assert pre + [k[|k| - 1]] == k;
    }
  }

  /** Running `_nms` on its own output changes nothing. */
  lemma NmsIdempotent(rects: seq<Box>, thr: real)
    ensures Kept(Kept(rects, thr), thr) == Kept(rects, thr)
  {
    KeptShape(rects, thr);
    KeptSeparated(Kept(rects, thr), thr);
  }

  // ---------------------------------------------------------------- difference regions

  /** The box of a bounding rectangle (x, y, w, h). */
  function BoxOf(b: (int, int, int, int)): Box {
    Box(b.0, b.1, b.0 + b.2, b.1 + b.3)
  }

  /** The contour bounding rectangles (x, y, w, h) of at least `minArea` pixels, as boxes, in order. */
  function LargeBoxes(bounds: seq<(int, int, int, int)>, minArea: int): (r: seq<Box>)
    ensures forall k :: 0 <= k < |r| ==> r[k].Area() >= minArea
    ensures forall k :: 0 <= k < |bounds| && bounds[k].2 * bounds[k].3 >= minArea ==> BoxOf(bounds[k]) in r
    ensures forall b :: b in r ==> exists k :: 0 <= k < |bounds| && bounds[k].2 * bounds[k].3 >= minArea && b == BoxOf(bounds[k])
  {
    if bounds == [] then []
    else
      var pre := bounds[..|bounds| - 1];
      var k := LargeBoxes(pre, minArea);
      var b := bounds[|bounds| - 1];
      assert forall j :: 0 <= j < |pre| ==> pre[j] == bounds[j];
      if b.2 * b.3 >= minArea then k + [BoxOf(b)] else k
  }

  /** Filtering a concatenation filters each part, so the boxes keep the order of their rectangles. */
  lemma {:induction false} LargeBoxesAppend(a: seq<(int, int, int, int)>, b: seq<(int, int, int, int)>, minArea: int)
    ensures LargeBoxes(a + b, minArea) == LargeBoxes(a, minArea) + LargeBoxes(b, minArea)
    decreases |b|
  {
    if b != [] {
      var n := |b| - 1;
      LargeBoxesAppend(a, b[..n], minArea);
      assert (a + b)[..|a + b| - 1] == a + b[..n];
      assert (a + b)[|a + b| - 1] == b[n];
    } else {
      assert a + b == a;
    }
  }

  /**
   * The end of `find_diff_regions`: without OpenCV it raises RuntimeError;
   * otherwise the bounding rectangles its contours give are filtered by
   * area and suppressed.
   */
  method RegionsFromContours(haveOpenCv: bool, bounds: seq<(int, int, int, int)>, minArea: int, nmsIou: real)
    returns (r: Result<seq<Box>>)
    ensures !haveOpenCv <==> r.Err?
    ensures r.Err? ==> r.error == RuntimeError("OpenCV is required for find_diff_regions")
    ensures r.Ok? ==> r.value == Kept(LargeBoxes(bounds, minArea), nmsIou)
  {
    if !haveOpenCv {
      return Err(RuntimeError("OpenCV is required for find_diff_regions"));
    }
    var rects: seq<Box> := [];
    for i := 0 to |bounds|
      invariant rects == LargeBoxes(bounds[..i], minArea)
    {
      assert bounds[..i + 1][..i] == bounds[..i];
      var (x, y, w, h) := bounds[i];
      if w * h >= minArea {
        rects := rects + [Box(x, y, x + w, y + h)];
      }
    }
    assert bounds[..|bounds|] == bounds;
    var kept := Nms(rects, nmsIou);
    r := Ok(kept);
  }

  // ---------------------------------------------------------------- conversion to points

  /** One pixel box in points: each side times 72/dpi, with no page-origin offset, then clamped to the page. */
  function PxToPdf(b: Box, dpi: int, page: RRect): (r: RRect)
    requires dpi != 0
    ensures r.x0 >= page.x0 && r.y0 >= page.y0 && r.x1 <= page.x1 && r.y1 <= page.y1
  {
    var scale := 72.0 / dpi as real;
    RRect(MaxR(b.x0 as real * scale, page.x0), MaxR(b.y0 as real * scale, page.y0),
          MinR(b.x1 as real * scale, page.x1), MinR(b.y1 as real * scale, page.y1))
  }

  /** A box whose scaled image lies on the page is only scaled: 72/dpi points per pixel, measured from 0. */
  lemma PxToPdfInside(b: Box, dpi: int, page: RRect)
    requires dpi != 0
    requires RRect(b.x0 as real * 72.0 / dpi as real, b.y0 as real * 72.0 / dpi as real,
                   b.x1 as real * 72.0 / dpi as real, b.y1 as real * 72.0 / dpi as real).Within(page)
    ensures PxToPdf(b, dpi, page) == RRect(b.x0 as real * 72.0 / dpi as real, b.y0 as real * 72.0 / dpi as real,
                                           b.x1 as real * 72.0 / dpi as real, b.y1 as real * 72.0 / dpi as real)
  {
    var s := 72.0 / dpi as real;
    assert b.x0 as real * 72.0 / dpi as real == b.x0 as real * s;
    assert b.y0 as real * 72.0 / dpi as real == b.y0 as real * s;
    assert b.x1 as real * 72.0 / dpi as real == b.x1 as real * s;
    assert b.y1 as real * 72.0 / dpi as real == b.y1 as real * s;
  }

  /** `px_to_pdf_rects`: a ZeroDivisionError when dpi is 0, else one rectangle per box, in order. */
  method PxToPdfRects(rectsPx: seq<Box>, dpi: int, page: RRect) returns (r: Result<seq<RRect>>)
    ensures dpi == 0 <==> r.Err?
    ensures r.Err? ==> r.error == ZeroDivisionError
    ensures r.Ok? ==> |r.value| == |rectsPx| && forall i :: 0 <= i < |rectsPx| ==> r.value[i] == PxToPdf(rectsPx[i], dpi, page)
  {
    if dpi == 0 {
      return Err(ZeroDivisionError);
    }
    var pdfRects: seq<RRect> := [];
    for i := 0 to |rectsPx|
      invariant |pdfRects| == i && forall k :: 0 <= k < i ==> pdfRects[k] == PxToPdf(rectsPx[k], dpi, page)
    {
      pdfRects := pdfRects + [PxToPdf(rectsPx[i], dpi, page)];
    }
    r := Ok(pdfRects);
  }

  // ---------------------------------------------------------------- title block

  /** The title block in pixels: each coordinate times dpi/72, truncated toward zero. */
  function MaskRect(pts: RRect, dpi: int): Box {
    var scale := dpi as real / 72.0;
    Box(Trunc(pts.x0 * scale), Trunc(pts.y0 * scale), Trunc(pts.x1 * scale), Trunc(pts.y1 * scale))
  }

  /** `r` and the mask overlap with positive extent on both axes; touching is not enough. */
  predicate Hits(r: Box, m: Box) {
    r.x0 < m.x1 && r.x1 > m.x0 && r.y0 < m.y1 && r.y1 > m.y0
  }

  /** The rectangles that stay out of the mask, in order. */
  function DropTitle(rects: seq<Box>, m: Box): (r: seq<Box>)
    ensures forall x :: x in r <==> x in rects && !Hits(x, m)
  {
    if rects == [] then []
    else
      var k := DropTitle(rects[..|rects| - 1], m);
      var x := rects[|rects| - 1];
      assert forall y :: y in rects <==> y in rects[..|rects| - 1] || y == x;
      if Hits(x, m) then k else k + [x]
  }

  /** Filtering a concatenation filters each part, so the filter decides box by box and keeps the order. */
  lemma {:induction false} DropTitleAppend(a: seq<Box>, b: seq<Box>, m: Box)
    ensures DropTitle(a + b, m) == DropTitle(a, m) + DropTitle(b, m)
  {
    if b == [] {
      assert a + b == a;
    } else {
      var b' := b[..|b| - 1];
      DropTitleAppend(a, b', m);
      assert (a + b)[..|a + b| - 1] == a + b';
      assert (a + b)[|a + b| - 1] == b[|b| - 1];
    }
  }

  /** The filter's output is a subsequence of its input. */
  lemma {:induction false} DropTitleSubseq(rects: seq<Box>, m: Box)
    ensures SubseqOf(DropTitle(rects, m), rects)
  {
    if rects != [] {
      var pre := rects[..|rects| - 1];
      var x := rects[|rects| - 1];
      DropTitleSubseq(pre, m);
      var k := DropTitle(pre, m);
      if !Hits(x, m) {
        assert (k + [x])[..|k|] == k;
      }
    }
  }

  /** `if ignore_title_block and ignore_title_rect_pts`: the filter runs only when asked for and given a rectangle. */
  function TitleFilter(rects: seq<Box>, dpi: int, ignoreTitleBlock: bool, titleRect: Option<RRect>): seq<Box> {
    if ignoreTitleBlock && titleRect.Some? then DropTitle(rects, MaskRect(titleRect.value, dpi)) else rects
  }

  // ---------------------------------------------------------------- all pages

  /** The options the page loop reads; the OpenCV settings belong to the region search, which is passed in. */
  datatype Options = Options(dpi: int, ignoreTitleBlock: bool, titleRect: Option<RRect>)

  /**
   * What rendering, alignment and the region search give for one page pair:
   * the old page's rectangle and the pixel boxes, or None when one of them
   * raised.
   */
  type Scan = Option<(RRect, seq<Box>)>

  /** The rectangles one page records; a page whose processing raises records none. */
  function PageRects(scan: Scan, opts: Options): seq<RRect> {
    match scan
    case None => []
    case Some((pageRect, px)) =>
      if opts.dpi == 0 then []
      else
        var kept := TitleFilter(px, opts.dpi, opts.ignoreTitleBlock, opts.titleRect);
        seq(|kept|, k requires 0 <= k < |kept| => PxToPdf(kept[k], opts.dpi, pageRect))
  }

  /** The body of the page loop, inside its `try`. */
  method ProcessPage(scan: Scan, opts: Options) returns (rects: seq<RRect>)
    ensures rects == PageRects(scan, opts)
  {
    if scan.None? {
      return [];
    }
    var (pageRect, px) := scan.value;
    if opts.ignoreTitleBlock && opts.titleRect.Some? {
      px := DropTitle(px, MaskRect(opts.titleRect.value, opts.dpi));
    }
    var converted := PxToPdfRects(px, opts.dpi, pageRect);
    if converted.Err? {
      return [];
    }
    rects := converted.value;
  }

  /** The result of `compare_pdfs_all_pages_raster_guided`, without its echo of the parameters and its elapsed time. */
  datatype RasterResult = RasterResult(pages: nat, rectsOld: map<nat, seq<RRect>>, rectsNew: map<nat, seq<RRect>>,
                                       counts: map<nat, real>)

  /** Every page index below the smaller page count, mapped to its rectangles; the same map serves both drawings. */
  function RasterSpec(oldCount: nat, newCount: nat, scan: nat -> Scan, opts: Options): RasterResult {
    var pages := if oldCount <= newCount then oldCount else newCount;
    var rects := map i: nat | i < pages :: PageRects(scan(i), opts);
    RasterResult(pages, rects, rects, map i: nat | i < pages :: |PageRects(scan(i), opts)| as real)
  }

  /** `compare_pdfs_all_pages_raster_guided`: the page loop over the pages both documents have. */
  method RasterGuided(oldCount: nat, newCount: nat, scan: nat -> Scan, opts: Options) returns (res: RasterResult)
    ensures res == RasterSpec(oldCount, newCount, scan, opts)
  {
    var pages := if oldCount <= newCount then oldCount else newCount;
    var rectsOld: map<nat, seq<RRect>> := map[];
    var rectsNew: map<nat, seq<RRect>> := map[];
    var counts: map<nat, real> := map[];
    for i := 0 to pages
      invariant rectsOld == map j: nat | j < i :: PageRects(scan(j), opts)
      invariant rectsNew == rectsOld
      invariant counts == map j: nat | j < i :: |PageRects(scan(j), opts)| as real
    {
      var rects := ProcessPage(scan(i), opts);
      rectsOld := rectsOld[i := rects];
      rectsNew := rectsNew[i := rects];
      counts := counts[i := |rects| as real];
    }
    res := RasterResult(pages, rectsOld, rectsNew, counts);
  }

  /**
   * One entry per page both documents have; each page marks the same
   * rectangles on both drawings, counts them, and keeps them on the old
   * page. A page that fails records nothing and counts zero.
   */
  lemma RasterLaws(oldCount: nat, newCount: nat, scan: nat -> Scan, opts: Options)
    ensures var res := RasterSpec(oldCount, newCount, scan, opts);
            res.pages <= oldCount && res.pages <= newCount && (res.pages == oldCount || res.pages == newCount)
            && (forall i: nat :: i in res.rectsOld <==> i < res.pages)
            && res.rectsNew == res.rectsOld && res.counts.Keys == res.rectsOld.Keys
            && (forall i: nat :: i < res.pages ==> res.counts[i] == |res.rectsOld[i]| as real)
            && (forall i: nat :: i < res.pages && scan(i).None? ==> res.rectsOld[i] == [] && res.counts[i] == 0.0)
            && (forall i: nat, r :: i < res.pages && scan(i).Some? && r in res.rectsOld[i] ==>
                  var page := scan(i).value.0;
                  page.x0 <= r.x0 && page.y0 <= r.y0 && r.x1 <= page.x1 && r.y1 <= page.y1)
  {
  }

  /** Without the title filter every pixel box of a page gives exactly one rectangle, in order. */
  lemma PageRectsAll(pageRect: RRect, px: seq<Box>, opts: Options)
    requires opts.dpi != 0 && !(opts.ignoreTitleBlock && opts.titleRect.Some?)
    ensures var rs := PageRects(Some((pageRect, px)), opts);
            |rs| == |px| && forall k :: 0 <= k < |px| ==> rs[k] == PxToPdf(px[k], opts.dpi, pageRect)
  {
  }

  /** `compare_pdfs_all_pages`: only the raster-guided engine exists; any other name raises ValueError. */
  method CompareAllPages(engine: string, oldCount: nat, newCount: nat, scan: nat -> Scan, opts: Options)
    returns (r: Result<RasterResult>)
    ensures r.Ok? <==> engine == "raster_guided"
    ensures r.Ok? ==> r.value == RasterSpec(oldCount, newCount, scan, opts)
    ensures r.Err? ==> r.error == ValueError("Unknown engine: " + engine)
  {
    if engine == "raster_guided" {
      var res := RasterGuided(oldCount, newCount, scan, opts);
      return Ok(res);
    }
    return Err(ValueError("Unknown engine: " + engine));
  }
}
