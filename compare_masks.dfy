/**
 * The mask stage of the raster comparison in compare.py: per-pixel
 * thresholds, one-sided differences, the pure-numpy morphology fallback
 * (constant-padded max/min filters, dilation, erosion, closing) and the
 * in-place zeroing of ignore regions.
 *
 * Rasters are 2-D integer arrays; a gray raster holds values in [0, 255] and
 * a mask holds only 0 and 255.
 */
module CompareMasks {
  import opened Wrappers
  import opened Geometry

  const On: int := 255

  predicate SameShape(a: array2<int>, b: array2<int>) {
    a.Length0 == b.Length0 && a.Length1 == b.Length1
  }

  ghost predicate Gray(a: array2<int>) reads a {
    forall y, x :: 0 <= y < a.Length0 && 0 <= x < a.Length1 ==> 0 <= a[y, x] <= 255
  }

  ghost predicate IsMask(a: array2<int>) reads a {
    forall y, x :: 0 <= y < a.Length0 && 0 <= x < a.Length1 ==> a[y, x] == 0 || a[y, x] == On
  }

  ghost predicate AllZero(a: array2<int>) reads a {
    forall y, x :: 0 <= y < a.Length0 && 0 <= x < a.Length1 ==> a[y, x] == 0
  }

  /** Two rasters of one shape with equal pixels. */
  predicate Identical(a: array2<int>, b: array2<int>) reads a, b {
    SameShape(a, b) && forall y, x :: 0 <= y < a.Length0 && 0 <= x < a.Length1 ==> a[y, x] == b[y, x]
  }

  // ---------------------------------------------------------------- thresholds

  /** One pixel of `_threshold`: 255 exactly where the value reaches the threshold. */
  function ThresholdPixel(v: int, threshold: int): (r: int)
    ensures r == On <==> v >= threshold
    ensures r == 0 <==> v < threshold
  {
    if v >= threshold then On else 0
  }

  /** `_threshold`: the mask of the pixels whose value is at least `threshold`. */
  method Threshold(image: array2<int>, threshold: int) returns (mask: array2<int>)
    ensures fresh(mask) && SameShape(mask, image) && IsMask(mask)
    ensures forall y, x :: 0 <= y < image.Length0 && 0 <= x < image.Length1 ==>
              mask[y, x] == ThresholdPixel(image[y, x], threshold)
  {
    mask := new int[image.Length0, image.Length1]((y, x) reads image =>
      if 0 <= y < image.Length0 && 0 <= x < image.Length1 then ThresholdPixel(image[y, x], threshold) else 0);
  }

  /** One pixel of `_positive_difference`: a - b clamped below at zero. */
  function PositivePixel(a: int, b: int): (r: int)
    ensures r >= 0 && r >= a - b
    ensures r == 0 || r == a - b
  {
    if a - b < 0 then 0 else a - b
  }

  /** The added and the removed difference are never both nonzero, and together they give a - b. */
  lemma OneSided(a: int, b: int)
    ensures PositivePixel(a, b) == 0 || PositivePixel(b, a) == 0
    ensures PositivePixel(a, b) - PositivePixel(b, a) == a - b
  {
  }

  /** `_positive_difference` of two gray rasters of one shape (the int16 difference never wraps). */
  method PositiveDifference(a: array2<int>, b: array2<int>) returns (d: array2<int>)
    requires SameShape(a, b) && Gray(a) && Gray(b)
    ensures fresh(d) && SameShape(d, a) && Gray(d)
    ensures forall y, x :: 0 <= y < a.Length0 && 0 <= x < a.Length1 ==>
              d[y, x] == PositivePixel(a[y, x], b[y, x])
  {
    d := new int[a.Length0, a.Length1]((y, x) reads a, b =>
      if 0 <= y < a.Length0 && 0 <= x < a.Length1 then PositivePixel(a[y, x], b[y, x]) else 0);
  }

  function Abs(v: int): int { if v < 0 then -v else v }

  /** `np.abs(old - new)` computed in int16 on two gray rasters. */
  method AbsDifference(a: array2<int>, b: array2<int>) returns (d: array2<int>)
    requires SameShape(a, b) && Gray(a) && Gray(b)
    ensures fresh(d) && SameShape(d, a) && Gray(d)
    ensures forall y, x :: 0 <= y < a.Length0 && 0 <= x < a.Length1 ==>
              d[y, x] == Abs(a[y, x] - b[y, x])
  {
    d := new int[a.Length0, a.Length1]((y, x) reads a, b =>
      if 0 <= y < a.Length0 && 0 <= x < a.Length1 then Abs(a[y, x] - b[y, x]) else 0);
  }

  /** `np.maximum` of two rasters of one shape. */
  method Maximum(a: array2<int>, b: array2<int>) returns (m: array2<int>)
    requires SameShape(a, b)
    ensures fresh(m) && SameShape(m, a)
    ensures forall y, x :: 0 <= y < a.Length0 && 0 <= x < a.Length1 ==>
              m[y, x] == MaxI(a[y, x], b[y, x])
  {
    m := new int[a.Length0, a.Length1]((y, x) reads a, b =>
      if 0 <= y < a.Length0 && 0 <= x < a.Length1 then MaxI(a[y, x], b[y, x]) else 0);
  }

  // ---------------------------------------------------------------- morphology

  /** The padding constant and starting value: 0 for the max filter, 255 for the min filter. */
  function Init(isMax: bool): int { if isMax then 0 else On }

  function Step(isMax: bool, acc: int, v: int): int { if isMax then MaxI(acc, v) else MinI(acc, v) }

  /** The pixel of `m` at (y, x), or `fill` outside it (`np.pad` with a constant). */
  function Pad(m: array2<int>, y: int, x: int, fill: int): int reads m {
    if 0 <= y < m.Length0 && 0 <= x < m.Length1 then m[y, x] else fill
  }

  /** The padded pixel that window offset (a, b) of a k x k kernel brings to (y, x). */
  function Term(m: array2<int>, k: int, isMax: bool, y: int, x: int, a: int, b: int): int reads m {
    Pad(m, y + a - k / 2, x + b - k / 2, Init(isMax))
  }

  /**
   * The filter value at (y, x) after the offsets (0, 0) .. (dy, dx - 1) in
   * row-major order have been folded into the starting value.
   */
  function Win(m: array2<int>, k: int, isMax: bool, y: int, x: int, dy: int, dx: int): int
    requires 0 <= dy && 0 <= dx <= k
    reads m
    decreases dy, dx
  {
    if dx == 0 then (if dy == 0 then Init(isMax) else Win(m, k, isMax, y, x, dy - 1, k))
    else Step(isMax, Win(m, k, isMax, y, x, dy, dx - 1), Term(m, k, isMax, y, x, dy, dx - 1))
  }

  /** Offset (a, b) is among those folded into Win(.., dy, dx). */
  predicate Covered(k: int, a: int, b: int, dy: int, dx: int) {
    0 <= a && 0 <= b < k && (a < dy || (a == dy && b < dx))
  }

  /** A max window is at least each of its terms; a min window at most each. */
  lemma {:induction false} WinVsTerm(m: array2<int>, k: int, isMax: bool, y: int, x: int,
                                     dy: int, dx: int, a: int, b: int)
    requires 0 <= dy && 0 <= dx <= k && Covered(k, a, b, dy, dx)
    ensures isMax ==> Win(m, k, isMax, y, x, dy, dx) >= Term(m, k, isMax, y, x, a, b)
    ensures !isMax ==> Win(m, k, isMax, y, x, dy, dx) <= Term(m, k, isMax, y, x, a, b)
    decreases dy, dx
  {
    if dx == 0 {
      WinVsTerm(m, k, isMax, y, x, dy - 1, k, a, b);
    } else if !(a == dy && b == dx - 1) {
      WinVsTerm(m, k, isMax, y, x, dy, dx - 1, a, b);
    }
  }

  /** A window whose start and whose every term lie in [lo, hi] lies in [lo, hi]. */
  lemma {:induction false} WinWithin(m: array2<int>, k: int, isMax: bool, y: int, x: int,
                                     dy: int, dx: int, lo: int, hi: int)
    requires 0 <= dy && 0 <= dx <= k && lo <= Init(isMax) <= hi
    requires forall a, b :: Covered(k, a, b, dy, dx) ==> lo <= Term(m, k, isMax, y, x, a, b) <= hi
    ensures lo <= Win(m, k, isMax, y, x, dy, dx) <= hi
    decreases dy, dx
  {
    if dx == 0 {
      if dy > 0 {
        forall a, b | Covered(k, a, b, dy - 1, k) ensures lo <= Term(m, k, isMax, y, x, a, b) <= hi {
          assert Covered(k, a, b, dy, dx);
        }
        WinWithin(m, k, isMax, y, x, dy - 1, k, lo, hi);
      }
    } else {
      forall a, b | Covered(k, a, b, dy, dx - 1) ensures lo <= Term(m, k, isMax, y, x, a, b) <= hi {
        assert Covered(k, a, b, dy, dx);
      }
      WinWithin(m, k, isMax, y, x, dy, dx - 1, lo, hi);
      assert Covered(k, dy, dx - 1, dy, dx);
    }
  }

  /** Filtering a {0, 255} mask gives a {0, 255} value. */
  lemma {:induction false} WinMask(m: array2<int>, k: int, isMax: bool, y: int, x: int, dy: int, dx: int)
    requires 0 <= dy && 0 <= dx <= k && IsMask(m)
    ensures Win(m, k, isMax, y, x, dy, dx) == 0 || Win(m, k, isMax, y, x, dy, dx) == On
    decreases dy, dx
  {
    if dx == 0 {
      if dy > 0 { WinMask(m, k, isMax, y, x, dy - 1, k); }
    } else {
      WinMask(m, k, isMax, y, x, dy, dx - 1);
    }
  }

  /** Win depends only on the contents of the raster. */
  lemma {:induction false} WinSameContents(m: array2<int>, n: array2<int>, k: int, isMax: bool,
                                           y: int, x: int, dy: int, dx: int)
    requires 0 <= dy && 0 <= dx <= k && SameShape(m, n)
    requires forall i, j :: 0 <= i < m.Length0 && 0 <= j < m.Length1 ==> m[i, j] == n[i, j]
    ensures Win(m, k, isMax, y, x, dy, dx) == Win(n, k, isMax, y, x, dy, dx)
    decreases dy, dx
  {
    if dx == 0 {
      if dy > 0 { WinSameContents(m, n, k, isMax, y, x, dy - 1, k); }
    } else {
      WinSameContents(m, n, k, isMax, y, x, dy, dx - 1);
    }
  }

  /** The full k x k window of the filter at (y, x). */
  function Filtered(m: array2<int>, k: int, isMax: bool, y: int, x: int): int
    requires k >= 0
    reads m
  {
    Win(m, k, isMax, y, x, k, 0)
  }

  /** The full window contains the centre offset (k/2, k/2), so the filter bounds the pixel itself. */
  lemma CentreBound(m: array2<int>, k: int, isMax: bool, y: int, x: int)
    requires k >= 1 && 0 <= y < m.Length0 && 0 <= x < m.Length1
    ensures isMax ==> Filtered(m, k, isMax, y, x) >= m[y, x]
    ensures !isMax ==> Filtered(m, k, isMax, y, x) <= m[y, x]
  {
    WinVsTerm(m, k, isMax, y, x, k, 0, k / 2, k / 2);
  }

  /**
   * `_max_filter` (isMax) and `_min_filter` (!isMax): pad by k/2 with 0 or
   * 255, then fold `np.maximum` / `np.minimum` over the k*k shifted views.
   */
  method WindowFilter(mask: array2<int>, k: int, isMax: bool) returns (out: array2<int>)
    requires k >= 1
    ensures fresh(out) && SameShape(out, mask)
    ensures forall y, x :: 0 <= y < mask.Length0 && 0 <= x < mask.Length1 ==>
              out[y, x] == Filtered(mask, k, isMax, y, x)
  {
    var h, w := mask.Length0, mask.Length1;
    out := new int[h, w]((_, _) => Init(isMax));
    var dy := 0;
    while dy < k
      invariant 0 <= dy <= k
      invariant fresh(out) && out.Length0 == h && out.Length1 == w
      invariant forall y, x :: 0 <= y < h && 0 <= x < w ==> out[y, x] == Win(mask, k, isMax, y, x, dy, 0)
    {
      var dx := 0;
      while dx < k
        invariant 0 <= dx <= k
        invariant fresh(out) && out.Length0 == h && out.Length1 == w
        invariant forall y, x :: 0 <= y < h && 0 <= x < w ==> out[y, x] == Win(mask, k, isMax, y, x, dy, dx)
      {
        var prev := out;
        out := new int[h, w]((y, x) reads prev, mask =>
          if 0 <= y < prev.Length0 && 0 <= x < prev.Length1
          then Step(isMax, prev[y, x], Term(mask, k, isMax, y, x, dy, dx)) else 0);
        dx := dx + 1;
      }
      dy := dy + 1;
    }
  }

  /** `_max_filter`: never clears a set pixel, and keeps a mask a mask. */
  method MaxFilter(mask: array2<int>, k: int) returns (out: array2<int>)
    requires k >= 1
    ensures fresh(out) && SameShape(out, mask)
    ensures forall y, x :: 0 <= y < mask.Length0 && 0 <= x < mask.Length1 ==>
              out[y, x] == Filtered(mask, k, true, y, x) && out[y, x] >= mask[y, x]
    ensures IsMask(mask) ==> IsMask(out)
    ensures AllZero(mask) ==> AllZero(out)
  {
    out := WindowFilter(mask, k, true);
    forall y, x | 0 <= y < mask.Length0 && 0 <= x < mask.Length1
      ensures out[y, x] >= mask[y, x]
      ensures IsMask(mask) ==> out[y, x] == 0 || out[y, x] == On
      ensures AllZero(mask) ==> out[y, x] == 0
    {
      CentreBound(mask, k, true, y, x);
      if IsMask(mask) { WinMask(mask, k, true, y, x, k, 0); }
      if AllZero(mask) { WinWithin(mask, k, true, y, x, k, 0, 0, 0); }
    }
  }

  /** `_min_filter`: never sets a cleared pixel, and keeps a mask a mask. */
  method MinFilter(mask: array2<int>, k: int) returns (out: array2<int>)
    requires k >= 1
    ensures fresh(out) && SameShape(out, mask)
    ensures forall y, x :: 0 <= y < mask.Length0 && 0 <= x < mask.Length1 ==>
              out[y, x] == Filtered(mask, k, false, y, x) && out[y, x] <= mask[y, x]
    ensures IsMask(mask) ==> IsMask(out)
    ensures AllZero(mask) ==> AllZero(out)
  {
    out := WindowFilter(mask, k, false);
    forall y, x | 0 <= y < mask.Length0 && 0 <= x < mask.Length1
      ensures out[y, x] <= mask[y, x]
      ensures IsMask(mask) ==> out[y, x] == 0 || out[y, x] == On
      ensures AllZero(mask) ==> out[y, x] == 0
    {
      CentreBound(mask, k, false, y, x);
      if IsMask(mask) { WinMask(mask, k, false, y, x, k, 0); }
      if AllZero(mask) { WinWithin(mask, k, false, y, x, k, 0, 0, On); }
    }
  }

  /** `mask.copy()`. */
  method Copy(mask: array2<int>) returns (c: array2<int>)
    ensures fresh(c) && SameShape(c, mask)
    ensures forall y, x :: 0 <= y < mask.Length0 && 0 <= x < mask.Length1 ==> c[y, x] == mask[y, x]
  {
    c := new int[mask.Length0, mask.Length1]((y, x) reads mask =>
      if 0 <= y < mask.Length0 && 0 <= x < mask.Length1 then mask[y, x] else 0);
  }

  /**
   * `_binary_dilate` (isMax) and `_binary_erode` (!isMax): `iterations`
   * passes of the max or min filter over a copy of the mask.
   */
  method Iterate(mask: array2<int>, k: int, iterations: int, isMax: bool) returns (result: array2<int>)
    requires k >= 1
    ensures fresh(result) && SameShape(result, mask)
    ensures forall y, x :: 0 <= y < mask.Length0 && 0 <= x < mask.Length1 ==>
              if isMax then result[y, x] >= mask[y, x] else result[y, x] <= mask[y, x]
    ensures iterations <= 0 ==> forall y, x :: 0 <= y < mask.Length0 && 0 <= x < mask.Length1 ==>
              result[y, x] == mask[y, x]
    ensures iterations == 1 ==> forall y, x :: 0 <= y < mask.Length0 && 0 <= x < mask.Length1 ==>
              result[y, x] == Filtered(mask, k, isMax, y, x)
    ensures IsMask(mask) ==> IsMask(result)
    ensures AllZero(mask) ==> AllZero(result)
  {
    result := Copy(mask);
    var i := 0;
    while i < iterations
      invariant fresh(result) && SameShape(result, mask)
      invariant forall y, x :: 0 <= y < mask.Length0 && 0 <= x < mask.Length1 ==>
                  if isMax then result[y, x] >= mask[y, x] else result[y, x] <= mask[y, x]
      invariant i == 0 ==> forall y, x :: 0 <= y < mask.Length0 && 0 <= x < mask.Length1 ==>
                  result[y, x] == mask[y, x]
      invariant i == 1 ==> forall y, x :: 0 <= y < mask.Length0 && 0 <= x < mask.Length1 ==>
                  result[y, x] == Filtered(mask, k, isMax, y, x)
      invariant IsMask(mask) ==> IsMask(result)
      invariant AllZero(mask) ==> AllZero(result)
      invariant i == 0 || 0 < i <= iterations
    {
      ghost var before := result;
      if isMax {
        result := MaxFilter(result, k);
      } else {
        result := MinFilter(result, k);
      }
      if i == 0 {
        forall y, x | 0 <= y < mask.Length0 && 0 <= x < mask.Length1
          ensures result[y, x] == Filtered(mask, k, isMax, y, x)
        {
          WinSameContents(before, mask, k, isMax, y, x, k, 0);
        }
      }
      i := i + 1;
    }
  }

  /** `_binary_dilate`. */
  method BinaryDilate(mask: array2<int>, k: int, iterations: int) returns (result: array2<int>)
    requires k >= 1
    ensures fresh(result) && SameShape(result, mask)
    ensures forall y, x :: 0 <= y < mask.Length0 && 0 <= x < mask.Length1 ==> result[y, x] >= mask[y, x]
    ensures iterations == 1 ==> forall y, x :: 0 <= y < mask.Length0 && 0 <= x < mask.Length1 ==>
              result[y, x] == Filtered(mask, k, true, y, x)
    ensures IsMask(mask) ==> IsMask(result)
    ensures AllZero(mask) ==> AllZero(result)
  {
    result := Iterate(mask, k, iterations, true);
  }

  /** `_binary_erode`. */
  method BinaryErode(mask: array2<int>, k: int, iterations: int) returns (result: array2<int>)
    requires k >= 1
    ensures fresh(result) && SameShape(result, mask)
    ensures forall y, x :: 0 <= y < mask.Length0 && 0 <= x < mask.Length1 ==> result[y, x] <= mask[y, x]
    ensures iterations == 1 ==> forall y, x :: 0 <= y < mask.Length0 && 0 <= x < mask.Length1 ==>
              result[y, x] == Filtered(mask, k, false, y, x)
    ensures IsMask(mask) ==> IsMask(result)
    ensures AllZero(mask) ==> AllZero(result)
  {
    result := Iterate(mask, k, iterations, false);
  }

  /**
   * Closing with an odd kernel is extensive: at (y, x) every offset of the
   * erosion window reaches, through the mirrored offset of the dilation
   * window, back to (y, x) itself.
   */
  lemma CloseExtensive(m: array2<int>, d: array2<int>, c: array2<int>, k: int, y: int, x: int)
    requires k >= 1 && k % 2 == 1 && SameShape(d, m) && SameShape(c, m) && Gray(m)
    requires 0 <= y < m.Length0 && 0 <= x < m.Length1
    requires forall i, j :: 0 <= i < m.Length0 && 0 <= j < m.Length1 ==> d[i, j] == Filtered(m, k, true, i, j)
    requires c[y, x] == Filtered(d, k, false, y, x)
    ensures c[y, x] >= m[y, x]
  {
    var p := k / 2;
    var v := m[y, x];
    forall a, b | Covered(k, a, b, k, 0) ensures v <= Term(d, k, false, y, x, a, b) <= On {
      var i, j := y + a - p, x + b - p;
      if 0 <= i < d.Length0 && 0 <= j < d.Length1 {
        WinVsTerm(m, k, true, i, j, k, 0, 2 * p - a, 2 * p - b);
        assert Term(m, k, true, i, j, 2 * p - a, 2 * p - b) == v;
        assert d[i, j] <= On by {
          forall a', b' | Covered(k, a', b', k, 0) ensures 0 <= Term(m, k, true, i, j, a', b') <= On { }
          WinWithin(m, k, true, i, j, k, 0, 0, On);
        }
      }
    }
    WinWithin(d, k, false, y, x, k, 0, v, On);
  }

  /** `_binary_close`: dilate once, then erode once. */
  method BinaryClose(mask: array2<int>, k: int) returns (result: array2<int>)
    requires k >= 1
    ensures fresh(result) && SameShape(result, mask)
    ensures k % 2 == 1 && Gray(mask) ==>
              forall y, x :: 0 <= y < mask.Length0 && 0 <= x < mask.Length1 ==> result[y, x] >= mask[y, x]
    ensures IsMask(mask) ==> IsMask(result)
    ensures AllZero(mask) ==> AllZero(result)
  {
    var d := BinaryDilate(mask, k, 1);
    result := BinaryErode(d, k, 1);
    if k % 2 == 1 && Gray(mask) {
      forall y, x | 0 <= y < mask.Length0 && 0 <= x < mask.Length1 ensures result[y, x] >= mask[y, x] {
        CloseExtensive(mask, d, result, k, y, x);
      }
    }
  }

  /** The kernel `_apply_morphology` uses: at least 1, and even sizes grow by one. */
  function OddKernel(kernelSize: int): (k: int)
    ensures k >= 1 && k % 2 == 1
    ensures kernelSize >= 1 && kernelSize % 2 == 1 ==> k == kernelSize
    ensures kernelSize >= 1 && kernelSize % 2 == 0 ==> k == kernelSize + 1
    ensures kernelSize < 1 ==> k == 1
  {
    var k := MaxI(1, kernelSize);
    if k % 2 == 0 then k + 1 else k
  }

  /**
   * `_apply_morphology` without OpenCV: a closing with the odd kernel, then
   * `dilate_iterations` dilations when positive.  The result never clears a
   * pixel of a gray input.
   */
  method ApplyMorphology(mask: array2<int>, kernelSize: int, dilateIterations: int) returns (result: array2<int>)
    ensures fresh(result) && SameShape(result, mask)
    ensures Gray(mask) ==>
              forall y, x :: 0 <= y < mask.Length0 && 0 <= x < mask.Length1 ==> result[y, x] >= mask[y, x]
    ensures IsMask(mask) ==> IsMask(result)
    ensures AllZero(mask) ==> AllZero(result)
  {
    var k := OddKernel(kernelSize);
    result := BinaryClose(mask, k);
    if dilateIterations > 0 {
      result := BinaryDilate(result, k, dilateIterations);
    }
  }

  // ---------------------------------------------------------------- ignore regions

  /** An ignore region in PDF points; `pageIndex` None applies to every page. */
  datatype RoiMask = RoiMask(pageIndex: Option<int>, rect: RRect)

  function Floor(r: real): int { r.Floor }
  function Ceil(r: real): int { -((-r).Floor) }

  /** The ROI's pixel rectangle: points to pixels at dpi/72, outward rounding, clamped to the raster. */
  function RoiPixels(roi: RoiMask, page: RRect, dpi: int, height: int, width: int): (r: Box)
    ensures 0 <= r.x0 && 0 <= r.y0 && r.x1 <= width && r.y1 <= height
  {
    var scale := dpi as real / 72.0;
    Box(MaxI(0, Floor((roi.rect.x0 - page.x0) * scale)),
        MaxI(0, Floor((roi.rect.y0 - page.y0) * scale)),
        MinI(width, Ceil((roi.rect.x1 - page.x0) * scale)),
        MinI(height, Ceil((roi.rect.y1 - page.y0) * scale)))
  }

  predicate InBox(b: Box, y: int, x: int) { b.y0 <= y < b.y1 && b.x0 <= x < b.x1 }

  /** Some ROI of `rois` with a non-empty pixel rectangle covers (y, x). */
  predicate Masked(rois: seq<RoiMask>, page: RRect, dpi: int, height: int, width: int, y: int, x: int)
  {
    exists i :: 0 <= i < |rois| && InBox(RoiPixels(rois[i], page, dpi, height, width), y, x)
  }

  /** `a[py0:py1, px0:px1] = 0` for a rectangle inside the raster. */
  method ZeroRect(a: array2<int>, r: Box)
    requires 0 <= r.x0 && 0 <= r.y0 && r.x1 <= a.Length1 && r.y1 <= a.Length0
    modifies a
    ensures forall y, x :: 0 <= y < a.Length0 && 0 <= x < a.Length1 ==>
              a[y, x] == if InBox(r, y, x) then 0 else old(a[y, x])
  {
    var y := r.y0;
    while y < r.y1
      invariant r.y0 <= y && (r.y0 <= r.y1 ==> y <= r.y1)
      invariant forall i, j :: 0 <= i < a.Length0 && 0 <= j < a.Length1 ==>
                  a[i, j] == if InBox(r, i, j) && i < y then 0 else old(a[i, j])
    {
      var x := r.x0;
      while x < r.x1
        invariant r.x0 <= x && (r.x0 <= r.x1 ==> x <= r.x1)
        invariant forall i, j :: 0 <= i < a.Length0 && 0 <= j < a.Length1 ==>
                    a[i, j] == if InBox(r, i, j) && (i < y || (i == y && j < x)) then 0 else old(a[i, j])
      {
        a[y, x] := 0;
        x := x + 1;
      }
      y := y + 1;
    }
  }

  /**
   * `_apply_roi_masks`: zeroes, in the combined mask and in the added and
   * removed masks, exactly the pixels that some ROI's non-empty clamped pixel
   * rectangle covers; every other pixel keeps its value.
   */
  method ApplyRoiMasks(mask: array2<int>, added: array2<int>, removed: array2<int>,
                       page: RRect, dpi: int, rois: seq<RoiMask>)
    requires mask != added && mask != removed && added != removed
    requires SameShape(mask, added) && SameShape(mask, removed)
    modifies mask, added, removed
    ensures forall y, x :: 0 <= y < mask.Length0 && 0 <= x < mask.Length1 ==>
              var hit := Masked(rois, page, dpi, mask.Length0, mask.Length1, y, x);
              mask[y, x] == (if hit then 0 else old(mask[y, x]))
              && added[y, x] == (if hit then 0 else old(added[y, x]))
              && removed[y, x] == (if hit then 0 else old(removed[y, x]))
  {
    if rois == [] {
      return;
    }
    var height, width := mask.Length0, mask.Length1;
    var i := 0;
    while i < |rois|
      invariant 0 <= i <= |rois|
      invariant forall y, x :: 0 <= y < height && 0 <= x < width ==>
                  var hit := Masked(rois[..i], page, dpi, height, width, y, x);
                  mask[y, x] == (if hit then 0 else old(mask[y, x]))
                  && added[y, x] == (if hit then 0 else old(added[y, x]))
                  && removed[y, x] == (if hit then 0 else old(removed[y, x]))
    {
      var r := RoiPixels(rois[i], page, dpi, height, width);
      if !(r.x0 >= r.x1 || r.y0 >= r.y1) {
        ZeroRect(mask, r);
        ZeroRect(added, r);
        ZeroRect(removed, r);
      }
      forall y, x | 0 <= y < height && 0 <= x < width
        ensures Masked(rois[..i + 1], page, dpi, height, width, y, x) <==>
                Masked(rois[..i], page, dpi, height, width, y, x) || InBox(r, y, x)
      {
        assert rois[..i + 1][i] == rois[i];
        if Masked(rois[..i], page, dpi, height, width, y, x) {
          var j :| 0 <= j < i && InBox(RoiPixels(rois[..i][j], page, dpi, height, width), y, x);
          assert rois[..i + 1][j] == rois[..i][j];
        }
        if Masked(rois[..i + 1], page, dpi, height, width, y, x) {
          var j :| 0 <= j < i + 1 && InBox(RoiPixels(rois[..i + 1][j], page, dpi, height, width), y, x);
          if j < i { assert rois[..i][j] == rois[..i + 1][j]; }
        }
      }
      i := i + 1;
    }
    assert rois[..i] == rois;
  }

  /** The `_index_rois` key: -1 for ROIs that apply to every page. */
  function RoiKey(r: RoiMask): int { if r.pageIndex.None? then -1 else r.pageIndex.value }

  /** The ROIs with key `key`, in input order. */
  function WithKey(rois: seq<RoiMask>, key: int): (r: seq<RoiMask>)
    ensures |r| <= |rois|
  {
    if rois == [] then []
    else WithKey(rois[..|rois| - 1], key)
         + (if RoiKey(rois[|rois| - 1]) == key then [rois[|rois| - 1]] else [])
  }

  /** A group holds exactly the ROIs with its key. */
  lemma {:induction false} WithKeyMembers(rois: seq<RoiMask>, key: int)
    ensures forall roi :: roi in WithKey(rois, key) <==> roi in rois && RoiKey(roi) == key
  {
    if rois != [] {
      var init := rois[..|rois| - 1];
      WithKeyMembers(init, key);
      assert rois == init + [rois[|rois| - 1]];
    }
  }

  /** The group stored under `key`, empty when there is none. */
  function GroupOf(indexed: map<int, seq<RoiMask>>, key: int): seq<RoiMask> {
    if key in indexed then indexed[key] else []
  }

  /** `indexed` holds, under each key, the non-empty group of the ROIs of `s` with that key. */
  ghost predicate IndexedBy(indexed: map<int, seq<RoiMask>>, s: seq<RoiMask>) {
    (forall key :: key in indexed ==> indexed[key] != [])
    && (forall key :: GroupOf(indexed, key) == WithKey(s, key))
  }

  /** Appending ROI `i` to the group of its key indexes one more ROI. */
  lemma IndexStep(indexed: map<int, seq<RoiMask>>, rois: seq<RoiMask>, i: int)
    requires 0 <= i < |rois| && IndexedBy(indexed, rois[..i])
    ensures var key := RoiKey(rois[i]);
            IndexedBy(indexed[key := GroupOf(indexed, key) + [rois[i]]], rois[..i + 1])
  {
    var key := RoiKey(rois[i]);
    var next := indexed[key := GroupOf(indexed, key) + [rois[i]]];
    assert rois[..i + 1][..i] == rois[..i];
    forall k ensures GroupOf(next, k) == WithKey(rois[..i + 1], k) {
      if k != key {
        assert GroupOf(next, k) == GroupOf(indexed, k);
      }
    }
  }

  /** An index of all the ROIs has exactly the keys with a non-empty group, under which it holds that group. */
  lemma IndexedLaws(indexed: map<int, seq<RoiMask>>, rois: seq<RoiMask>)
    requires IndexedBy(indexed, rois)
    ensures forall key :: key in indexed <==> WithKey(rois, key) != []
    ensures forall key :: key in indexed ==> indexed[key] == WithKey(rois, key)
  {
    forall key ensures key in indexed <==> WithKey(rois, key) != [] {
      assert GroupOf(indexed, key) == WithKey(rois, key);
    }
  }

  /** `_index_rois`: groups the ROIs by key, keeping the input order inside each group. */
  method IndexRois(rois: seq<RoiMask>) returns (indexed: map<int, seq<RoiMask>>)
    ensures forall key :: key in indexed <==> WithKey(rois, key) != []
    ensures forall key :: key in indexed ==> indexed[key] == WithKey(rois, key)
  {
    indexed := map[];
    if rois == [] {
      return;
    }
    var i := 0;
    while i < |rois|
      invariant 0 <= i <= |rois| && IndexedBy(indexed, rois[..i])
    {
      var roi := rois[i];
      var key := RoiKey(roi);
      var group := GroupOf(indexed, key);
      IndexStep(indexed, rois, i);
      indexed := indexed[key := group + [roi]];
      i := i + 1;
    }
    assert rois[..i] == rois;
    IndexedLaws(indexed, rois);
  }

  /** `_iter_rois_for_page`: the every-page ROIs, then the ROIs of this page. */
  function IterRoisForPage(indexed: map<int, seq<RoiMask>>, pageIndex: int): seq<RoiMask> {
    if indexed == map[] then []
    else (if -1 in indexed then indexed[-1] else []) + (if pageIndex in indexed then indexed[pageIndex] else [])
  }

  /**
   * Indexing then iterating yields the every-page ROIs first and the ROIs of
   * the page after them, each group in input order.
   */
  lemma RoisForPage(rois: seq<RoiMask>, indexed: map<int, seq<RoiMask>>, pageIndex: int)
    requires forall key :: key in indexed <==> WithKey(rois, key) != []
    requires forall key :: key in indexed ==> indexed[key] == WithKey(rois, key)
    ensures IterRoisForPage(indexed, pageIndex) == WithKey(rois, -1) + WithKey(rois, pageIndex)
  {
    if indexed == map[] {
      assert -1 !in indexed && pageIndex !in indexed;
    }
  }
}
