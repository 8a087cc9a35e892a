/**
 * One page of the raster comparison and the summaries of its result
 * (src/compareset/compare.py: `_connected_components`, the SSIM fallback,
 * `_diff_page`, the `to_dict` summaries and the page pairing of
 * `compare_pdfs`).
 */
module ComparePage {
  import opened Wrappers
  import opened Geometry
  import opened Sorting
  import opened Labeling
  import opened CompareMasks
  import opened CompareMerge
  import opened CompareRegions
  import opened Presets
  import PdfDiff

  /** `mask > 0`, pixel by pixel. */
  method Binarize(mask: array2<int>) returns (binary: array2<bool>)
    ensures fresh(binary) && binary.Length0 == mask.Length0 && binary.Length1 == mask.Length1
    ensures forall y, x :: 0 <= y < mask.Length0 && 0 <= x < mask.Length1 ==> (binary[y, x] <==> mask[y, x] > 0)
  {
    binary := new bool[mask.Length0, mask.Length1]((y, x) reads mask =>
      if 0 <= y < mask.Length0 && 0 <= x < mask.Length1 then mask[y, x] > 0 else false);
  }

  /**
   * `_connected_components` (the path taken without OpenCV): the flood fill
   * on `mask > 0`.  The components partition the set pixels; the boxes are
   * exactly the tight boxes of the components that reach the area limit, in
   * scan order, and lie in the raster; an all-zero mask gives none.
   */
  method ConnectedComponents(mask: array2<int>, minArea: int)
    returns (boxes: seq<Box>, ghost binary: array2<bool>, ghost comps: seq<seq<Pixel>>, ghost all: seq<Box>)
    ensures binary.Length0 == mask.Length0 && binary.Length1 == mask.Length1
    ensures forall y, x :: 0 <= y < mask.Length0 && 0 <= x < mask.Length1 ==> (binary[y, x] <==> mask[y, x] > 0)
    ensures |all| == |comps| && boxes == Kept(all, minArea)
    ensures forall i :: 0 <= i < |comps| ==> Component(binary, comps[i]) && TightBox(all[i], comps[i])
    ensures forall p :: IsSet(binary, p) <==> p in Flatten(comps)
    ensures forall i, j, p :: 0 <= i < j < |comps| && p in comps[i] ==> p !in comps[j]
    ensures forall i :: 0 <= i < |comps| && all[i].Area() >= minArea ==> all[i] in boxes
    ensures forall b :: b in boxes ==> exists i :: 0 <= i < |comps| && TightBox(b, comps[i])
    ensures forall b :: b in boxes ==>
              0 <= b.x0 < b.x1 <= mask.Length1 && 0 <= b.y0 < b.y1 <= mask.Length0 && b.Area() >= minArea
    ensures AllZero(mask) ==> boxes == []
  {
    var bin := Binarize(mask);
    binary := bin;
    boxes, comps, all := LabelComponents(bin, minArea);
    KeptBoxes(bin, boxes, comps, all, minArea);
    KeptSpec(all, minArea);
    forall i, j, p | 0 <= i < j < |comps| && p in comps[i]
      ensures p !in comps[j]
    {
      DisjointComponents(comps, i, j, p);
    }
    SomePixelSet(bin, comps);
  }

  /** One pixel of the fallback SSIM map, `clip(1 - |a - b| / 255, 0, 1)`. */
  function SsimPixel(a: int, b: int): real {
    MaxR(0.0, MinR(1.0, 1.0 - Abs(a - b) as real / 255.0))
  }

  /** For gray pixels the clip has no effect: one minus the difference share. */
  lemma SsimPixelGray(a: int, b: int)
    requires 0 <= a <= 255 && 0 <= b <= 255
    ensures SsimPixel(a, b) == 1.0 - Abs(a - b) as real / 255.0
    ensures a == b ==> SsimPixel(a, b) == 1.0
  {
  }

  /** One pixel of `ssim_mask`: 255 where `1 - ssim_map` reaches the threshold. */
  function SsimMaskPixel(a: int, b: int, threshold: real): (r: int)
    ensures r == On <==> 1.0 - SsimPixel(a, b) >= threshold
    ensures r == 0 <==> 1.0 - SsimPixel(a, b) < threshold
  {
    if 1.0 - SsimPixel(a, b) >= threshold then On else 0
  }

  /** The fallback score: the mean of the SSIM map, NaN (None) on an empty raster. */
  function SsimScore(d: array2<int>): Option<real>
    reads d
  {
    var n := d.Length0 * d.Length1;
    if n == 0 then None
    else Some(1.0 - RectSum(d, 0, d.Length0, 0, d.Length1) as real / (n as real * 255.0))
  }

  /** With `d` the absolute difference, the score lies in [0, 1] and is 1 for identical rasters. */
  lemma SsimScoreRange(d: array2<int>)
    requires Gray(d) && d.Length0 * d.Length1 > 0
    ensures SsimScore(d).Some? && 0.0 <= SsimScore(d).value <= 1.0
    ensures AllZero(d) ==> SsimScore(d) == Some(1.0)
  {
    var h, w := d.Length0, d.Length1;
    RectSumBound(d, 0, h, 0, w);
    var sum := RectSum(d, 0, h, 0, w);
    var n := h * w;
    if sum > 0 {
      RatioUnit(sum as real, n as real * 255.0);
    }
  }

  /** `_compute_ssim` without scikit-image, and the `ssim_mask` built from its map. */
  method SsimFallback(a: array2<int>, b: array2<int>, threshold: real) returns (score: Option<real>, mask: array2<int>)
    requires SameShape(a, b) && Gray(a) && Gray(b)
    ensures fresh(mask) && SameShape(mask, a) && IsMask(mask)
    ensures forall y, x :: 0 <= y < a.Length0 && 0 <= x < a.Length1 ==>
              mask[y, x] == SsimMaskPixel(a[y, x], b[y, x], threshold)
    ensures a.Length0 * a.Length1 == 0 <==> score.None?
    ensures score.Some? ==> 0.0 <= score.value <= 1.0
    ensures (score.Some? && forall y, x :: 0 <= y < a.Length0 && 0 <= x < a.Length1 ==> a[y, x] == b[y, x])
            ==> score.value == 1.0
  {
    var d := AbsDifference(a, b);
    score := SsimScore(d);
    if a.Length0 * a.Length1 > 0 {
      SsimScoreRange(d);
    }
    mask := new int[a.Length0, a.Length1]((y, x) reads a, b =>
      if 0 <= y < a.Length0 && 0 <= x < a.Length1 then SsimMaskPixel(a[y, x], b[y, x], threshold) else 0);
  }

  /** `PageDiff`; `ssim` None stands for the NaN of an empty raster. */
  datatype PageDiff = PageDiff(index: int, widthPts: real, heightPts: real, regions: seq<DiffRegion>, ssim: Option<real>)

  predicate PositiveThresholds(params: CompareParams) {
    params.absdiffThreshold > 0 && params.ssimThreshold > 0.0 && params.addedThreshold > 0 && params.removedThreshold > 0
  }

  /**
   * The masks of `_diff_page` before morphology: the thresholded absolute
   * difference, the SSIM mask and the added and removed masks, combined by
   * their pixelwise maximum.
   */
  method CombinedMask(grayOld: array2<int>, grayNew: array2<int>, params: CompareParams)
    returns (combined: array2<int>, addedMask: array2<int>, removedMask: array2<int>, ssimScore: Option<real>)
    requires SameShape(grayOld, grayNew) && Gray(grayOld) && Gray(grayNew)
    ensures fresh(combined) && fresh(addedMask) && fresh(removedMask)
    ensures combined != addedMask && combined != removedMask && addedMask != removedMask
    ensures SameShape(combined, grayOld) && SameShape(addedMask, grayOld) && SameShape(removedMask, grayOld)
    ensures IsMask(combined) && IsMask(addedMask) && IsMask(removedMask)
    ensures forall y, x :: 0 <= y < grayOld.Length0 && 0 <= x < grayOld.Length1 ==>
              addedMask[y, x] == ThresholdPixel(PositivePixel(grayOld[y, x], grayNew[y, x]), params.addedThreshold)
              && removedMask[y, x] == ThresholdPixel(PositivePixel(grayNew[y, x], grayOld[y, x]), params.removedThreshold)
    ensures Identical(grayOld, grayNew) && PositiveThresholds(params) ==> AllZero(combined)
    ensures ssimScore.None? <==> grayOld.Length0 * grayOld.Length1 == 0
    ensures ssimScore.Some? ==> 0.0 <= ssimScore.value <= 1.0
    ensures ssimScore.Some? && Identical(grayOld, grayNew) ==> ssimScore.value == 1.0
  {
    var absDiff := AbsDifference(grayOld, grayNew);
    var absMask := Threshold(absDiff, params.absdiffThreshold);
    var ssimMask;
    ssimScore, ssimMask := SsimFallback(grayOld, grayNew, params.ssimThreshold);
    var added := PositiveDifference(grayOld, grayNew);
    var removed := PositiveDifference(grayNew, grayOld);
    addedMask := Threshold(added, params.addedThreshold);
    removedMask := Threshold(removed, params.removedThreshold);
    var left := Maximum(absMask, ssimMask);
    var right := Maximum(addedMask, removedMask);
    combined := Maximum(left, right);
    if Identical(grayOld, grayNew) && PositiveThresholds(params) {
      forall y, x | 0 <= y < grayOld.Length0 && 0 <= x < grayOld.Length1
        ensures combined[y, x] == 0
      {
        assert absMask[y, x] == 0 && ssimMask[y, x] == 0 && addedMask[y, x] == 0 && removedMask[y, x] == 0;
      }
    }
  }

  /** Every pixel of a `height` by `width` raster lies under one of the ROIs. */
  predicate AllMasked(rois: seq<RoiMask>, page: RRect, dpi: int, height: int, width: int) {
    forall y, x :: 0 <= y < height && 0 <= x < width ==> Masked(rois, page, dpi, height, width, y, x)
  }

  /**
   * What `_diff_page` gives for page `index` on rasters of `height` by
   * `width` pixels that are pixel for pixel equal exactly when `identical`:
   * the page keeps its index and its size in points; its regions are sorted,
   * carry the page index and a change type; the SSIM score is missing exactly
   * for a raster without pixels, lies in [0, 1] and is 1 for equal rasters;
   * and there is no region when the rasters are equal under positive
   * thresholds, or when the page's ROIs cover every pixel.
   */
  ghost predicate PageHolds(index: int, identical: bool, height: int, width: int, page: RRect,
                            params: CompareParams, rois: seq<RoiMask>, d: PageDiff) {
    && d.index == index && d.widthPts == page.x1 - page.x0 && d.heightPts == page.y1 - page.y0
    && Sorted(d.regions, RegionLe)
    && (forall g :: g in d.regions ==> g.pageIndex == index && IsChangeType(g.changeType))
    && (d.ssim.None? <==> height * width == 0)
    && (d.ssim.Some? ==> 0.0 <= d.ssim.value <= 1.0)
    && (identical && d.ssim.Some? ==> d.ssim.value == 1.0)
    && (identical && PositiveThresholds(params) ==> d.regions == [])
    && (AllMasked(rois, page, params.dpi, height, width) ==> d.regions == [])
  }

  /** `_diff_page` on the fallback path: a dpi of 0 is the only error. */
  method DiffPage(index: int, grayOld: array2<int>, grayNew: array2<int>, page: RRect, params: CompareParams,
                  rois: seq<RoiMask>) returns (r: Result<PageDiff>)
    requires SameShape(grayOld, grayNew) && Gray(grayOld) && Gray(grayNew)
    ensures params.dpi == 0 <==> r.Err?
    ensures r.Ok? ==> PageHolds(index, Identical(grayOld, grayNew), grayOld.Length0, grayOld.Length1, page,
                                params, rois, r.value)
  {
    var combined, addedMask, removedMask, ssimScore := CombinedMask(grayOld, grayNew, params);
    combined := ApplyMorphology(combined, params.morphKernelPx, params.dilateIterations);
    ApplyRoiMasks(combined, addedMask, removedMask, page, params.dpi, rois);
    ghost var covered := AllMasked(rois, page, params.dpi, grayOld.Length0, grayOld.Length1);
    assert (Identical(grayOld, grayNew) && PositiveThresholds(params)) || covered ==> AllZero(combined);
    var boxes, binary, comps, all := ConnectedComponents(combined, params.minAreaPx);
    var regions := BoxesToRegions(boxes, combined, addedMask, removedMask, page, params, index);
    if regions.Err? {
      return Err(regions.error);
    }
    RegionsShape(boxes, combined, addedMask, removedMask, page, params, index);
    if boxes == [] {
      RegionsEmpty(combined, addedMask, removedMask, page, params, index);
    }
    r := Ok(PageDiff(index, page.x1 - page.x0, page.y1 - page.y0, regions.value, ssimScore));
  }

  // ---------------------------------------------------------------- summaries

  function CountType(rs: seq<DiffRegion>, t: string): (n: nat)
    ensures n <= |rs|
  {
    if rs == [] then 0 else CountType(rs[..|rs| - 1], t) + (if rs[|rs| - 1].changeType == t then 1 else 0)
  }

  /** The `summary` of `PageDiff.to_dict`. */
  datatype PageSummary = PageSummary(total: nat, added: nat, removed: nat, modified: nat)

  function SummarizePage(p: PageDiff): PageSummary {
    PageSummary(|p.regions|, CountType(p.regions, Added), CountType(p.regions, Removed), CountType(p.regions, Modified))
  }

  /** When every region has a change type, the three counts add up to the total. */
  lemma {:induction false} CountsAddUp(rs: seq<DiffRegion>)
    requires forall g :: g in rs ==> IsChangeType(g.changeType)
    ensures CountType(rs, Added) + CountType(rs, Removed) + CountType(rs, Modified) == |rs|
  {
    if rs != [] {
      CountsAddUp(rs[..|rs| - 1]);
    }
  }

  lemma PageSummaryAddsUp(p: PageDiff)
    requires forall g :: g in p.regions ==> IsChangeType(g.changeType)
    ensures var s := SummarizePage(p); s.added + s.removed + s.modified == s.total
  {
    CountsAddUp(p.regions);
  }

  function TotalRegions(pages: seq<PageDiff>): nat {
    if pages == [] then 0 else TotalRegions(pages[..|pages| - 1]) + |pages[|pages| - 1].regions|
  }

  function PagesWithRegions(pages: seq<PageDiff>): nat {
    if pages == [] then 0
    else PagesWithRegions(pages[..|pages| - 1]) + (if pages[|pages| - 1].regions != [] then 1 else 0)
  }

  /** The `summary` of `DiffResult.to_dict`: pages with regions are at most the pages and at most the regions, and both are zero together. */
  lemma {:induction false} ResultSummaryBounds(pages: seq<PageDiff>)
    ensures PagesWithRegions(pages) <= |pages|
    ensures PagesWithRegions(pages) <= TotalRegions(pages)
    ensures TotalRegions(pages) == 0 <==> PagesWithRegions(pages) == 0
    ensures TotalRegions(pages) == 0 <==> forall i :: 0 <= i < |pages| ==> pages[i].regions == []
  {
    if pages != [] {
      var init := pages[..|pages| - 1];
      ResultSummaryBounds(init);
      assert forall i :: 0 <= i < |init| ==> init[i] == pages[i];
    }
  }

  /** `DiffResult`. */
  datatype DiffResult = DiffResult(params: CompareParams, pages: seq<PageDiff>, extraPagesOld: nat, extraPagesNew: nat)

  /** The pairing of `compare_pdfs`: the shorter document's page count, and what each side has beyond it. */
  function PagePairing(oldCount: nat, newCount: nat): (r: (nat, nat, nat))
    ensures r.0 + r.1 == oldCount && r.0 + r.2 == newCount
    ensures r.1 == 0 || r.2 == 0
    ensures r.0 <= oldCount && r.0 <= newCount
  {
    var pageCount := if oldCount <= newCount then oldCount else newCount;
    (pageCount, MaxI(0, oldCount - pageCount), MaxI(0, newCount - pageCount))
  }

  // ---------------------------------------------------------------- resizing

  /**
   * The source row (or column) `np.clip(np.round(np.linspace(0, src - 1, n)), 0, src - 1)`
   * picks for output position `k`: `k (src - 1) / (n - 1)` rounded half to
   * even, or 0 for a single output, clipped to the source.
   */
  function NearestIndex(k: nat, src: nat, n: nat): (r: int)
    requires k < n && src > 0
    ensures 0 <= r < src
  {
    var i := if n == 1 then 0 else PdfDiff.RoundHalfEven((k * (src - 1)) as real / (n - 1) as real);
    if i < 0 then 0 else if i > src - 1 then src - 1 else i
  }

  /** The pixel of `image[np.ix_(y_idx, x_idx)]` at (y, x) for a `height` by `width` output. */
  function ResizedPixel(image: array2<int>, height: nat, width: nat, y: nat, x: nat): int
    requires image.Length0 > 0 && image.Length1 > 0 && y < height && x < width
    reads image
  {
    image[NearestIndex(y, image.Length0, height), NearestIndex(x, image.Length1, width)]
  }

  /**
   * `_resize_raster` without OpenCV: the image itself when it already has the
   * asked shape or has no pixels; otherwise a fresh `height` by `width`
   * raster whose every pixel is the image's pixel at the nearest row and
   * column, so a gray image stays gray.
   */
  method ResizeRaster(image: array2<int>, width: nat, height: nat) returns (r: array2<int>)
    ensures (image.Length0 == height && image.Length1 == width) || image.Length0 == 0 || image.Length1 == 0
            ==> r == image
    ensures image.Length0 > 0 && image.Length1 > 0 ==> r.Length0 == height && r.Length1 == width
    ensures r != image ==>
              && fresh(r) && image.Length0 > 0 && image.Length1 > 0
              && forall y, x :: 0 <= y < height && 0 <= x < width ==> r[y, x] == ResizedPixel(image, height, width, y, x)
    ensures Gray(image) ==> Gray(r)
  {
    if image.Length0 == height && image.Length1 == width {
      return image;
    }
    if image.Length0 == 0 || image.Length1 == 0 {
      return image;
    }
    r := new int[height, width]((y, x) reads image =>
      if 0 <= y < height && 0 <= x < width && image.Length0 > 0 && image.Length1 > 0
      then ResizedPixel(image, height, width, y, x) else 0);
  }

  /** `compare_pdfs` can bring the old raster to the new raster's shape. */
  predicate Resizable(grayOld: array2<int>, grayNew: array2<int>) {
    SameShape(grayOld, grayNew) || (grayOld.Length0 > 0 && grayOld.Length1 > 0)
  }

  /** The old raster, brought to the new raster's shape, equals the new raster pixel for pixel. */
  ghost predicate Matches(grayOld: array2<int>, grayNew: array2<int>)
    reads grayOld, grayNew
  {
    if SameShape(grayOld, grayNew) then Identical(grayOld, grayNew)
    else grayOld.Length0 > 0 && grayOld.Length1 > 0
         && forall y, x :: 0 <= y < grayNew.Length0 && 0 <= x < grayNew.Length1 ==>
              ResizedPixel(grayOld, grayNew.Length0, grayNew.Length1, y, x) == grayNew[y, x]
  }

  /** What page `i` of `compare_pdfs` holds: `_diff_page` of page i with the every-page ROIs and those of page i. */
  ghost predicate PageOfDocs(i: nat, oldPages: seq<array2<int>>, newPages: seq<array2<int>>, pageRects: seq<RRect>,
                             params: CompareParams, rois: seq<RoiMask>, d: PageDiff)
    requires i < |oldPages| && i < |newPages| && i < |pageRects|
    reads oldPages[i], newPages[i]
  {
    PageHolds(i, Matches(oldPages[i], newPages[i]), newPages[i].Length0, newPages[i].Length1, pageRects[i],
              params, WithKey(rois, -1) + WithKey(rois, i), d)
  }

  /**
   * One turn of the page loop of `compare_pdfs`: an old raster of another
   * shape is resized to the new one's, then `_diff_page` compares the two.
   * An old raster without pixels cannot be resized, and numpy then refuses
   * rasters of different shapes.
   */
  method ComparePair(index: int, grayOld: array2<int>, grayNew: array2<int>, page: RRect, params: CompareParams,
                     rois: seq<RoiMask>) returns (r: Result<PageDiff>)
    requires Gray(grayOld) && Gray(grayNew)
    ensures r.Err? <==> params.dpi == 0 || !Resizable(grayOld, grayNew)
    ensures r.Ok? ==> PageHolds(index, Matches(grayOld, grayNew), grayNew.Length0, grayNew.Length1, page,
                                params, rois, r.value)
  {
    var resized := grayOld;
    if !SameShape(grayOld, grayNew) {
      resized := ResizeRaster(grayOld, grayNew.Length1, grayNew.Length0);
      if !SameShape(resized, grayNew) {
        return Err(ValueError("operands could not be broadcast together"));
      }
    }
    assert Identical(resized, grayNew) == Matches(grayOld, grayNew);
    r := DiffPage(index, resized, grayNew, page, params, rois);
  }

  /** Page `index` of `compare_pdfs`: its ROIs from the index, then `ComparePair`. */
  method PageStep(oldPages: seq<array2<int>>, newPages: seq<array2<int>>, pageRects: seq<RRect>,
                  params: CompareParams, rois: seq<RoiMask>, indexed: map<int, seq<RoiMask>>, index: nat)
    returns (r: Result<PageDiff>)
    requires index < |oldPages| && index < |newPages| && index < |pageRects|
    requires Gray(oldPages[index]) && Gray(newPages[index])
    requires forall key :: key in indexed <==> WithKey(rois, key) != []
    requires forall key :: key in indexed ==> indexed[key] == WithKey(rois, key)
    ensures r.Err? <==> params.dpi == 0 || !Resizable(oldPages[index], newPages[index])
    ensures r.Ok? ==> PageOfDocs(index, oldPages, newPages, pageRects, params, rois, r.value)
  {
    var pageRois := IterRoisForPage(indexed, index);
    RoisForPage(rois, indexed, index);
    r := ComparePair(index, oldPages[index], newPages[index], pageRects[index], params, pageRois);
  }

  /**
   * The page loop of `compare_pdfs` on pages already rendered to gray
   * rasters: an old raster of another shape is resized to the new one's,
   * and page i of the result is `_diff_page` of page i with the every-page
   * ROIs and the ROIs of page i.
   */
  method ComparePdfs(oldPages: seq<array2<int>>, newPages: seq<array2<int>>, pageRects: seq<RRect>,
                     params: CompareParams, rois: seq<RoiMask>) returns (r: Result<DiffResult>)
    requires forall i :: 0 <= i < |oldPages| && i < |newPages| ==> Gray(oldPages[i]) && Gray(newPages[i])
    requires |pageRects| >= PagePairing(|oldPages|, |newPages|).0
    ensures params.dpi == 0 && |oldPages| > 0 && |newPages| > 0 ==> r.Err?
    ensures params.dpi != 0 && (forall i :: 0 <= i < |oldPages| && i < |newPages| ==> Resizable(oldPages[i], newPages[i]))
            ==> r.Ok?
    ensures r.Ok? ==> var pairing := PagePairing(|oldPages|, |newPages|);
              |r.value.pages| == pairing.0 && r.value.extraPagesOld == pairing.1 && r.value.extraPagesNew == pairing.2
              && r.value.params == params
              && forall i :: 0 <= i < |r.value.pages| ==>
                   PageOfDocs(i, oldPages, newPages, pageRects, params, rois, r.value.pages[i])
  {
    var pageCount := PagePairing(|oldPages|, |newPages|).0;
    var indexed := IndexRois(rois);
    var pages: seq<PageDiff> := [];
    var index := 0;
    while index < pageCount
      invariant 0 <= index <= pageCount && |pages| == index
      invariant forall i :: 0 <= i < |pages| ==> PageOfDocs(i, oldPages, newPages, pageRects, params, rois, pages[i])
      invariant params.dpi == 0 ==> index == 0
    {
      var pageResult := PageStep(oldPages, newPages, pageRects, params, rois, indexed, index);
      if pageResult.Err? {
        return Err(pageResult.error);
      }
      pages := pages + [pageResult.value];
      index := index + 1;
    }
    var pairing := PagePairing(|oldPages|, |newPages|);
    r := Ok(DiffResult(params, pages, pairing.1, pairing.2));
  }
}
