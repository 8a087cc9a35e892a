/**
 * From candidate pixel boxes to reported regions (src/compareset/compare.py,
 * `_boxes_to_regions`): scoring each padded box against the masks, merging,
 * mapping to PDF points and sorting.
 */
module CompareRegions {
  import opened Wrappers
  import opened Geometry
  import opened Sorting
  import opened CompareMasks
  import opened CompareMerge
  import opened Presets

  /** A numpy slice bound `i` on an axis of length `n`, after normalisation. */
  function SliceBound(i: int, n: nat): (r: int)
    ensures 0 <= r <= n
    ensures 0 <= i <= n ==> r == i
  {
    if i < 0 then MaxI(0, i + n) else MinI(i, n)
  }

  /** The sum of row `y` of `m` over columns [x0, x1). */
  function RowSum(m: array2<int>, y: int, x0: int, x1: int): int
    requires 0 <= y < m.Length0 && 0 <= x0 <= x1 <= m.Length1
    reads m
    decreases x1 - x0
  {
    if x0 == x1 then 0 else RowSum(m, y, x0, x1 - 1) + m[y, x1 - 1]
  }

  /** The sum of `m` over rows [y0, y1) and columns [x0, x1). */
  function RectSum(m: array2<int>, y0: int, y1: int, x0: int, x1: int): int
    requires 0 <= y0 <= y1 <= m.Length0 && 0 <= x0 <= x1 <= m.Length1
    reads m
    decreases y1 - y0
  {
    if y0 == y1 then 0 else RectSum(m, y0, y1 - 1, x0, x1) + RowSum(m, y1 - 1, x0, x1)
  }

  lemma {:induction false} RowSumBound(m: array2<int>, y: int, x0: int, x1: int)
    requires 0 <= y < m.Length0 && 0 <= x0 <= x1 <= m.Length1 && Gray(m)
    ensures 0 <= RowSum(m, y, x0, x1) <= 255 * (x1 - x0)
    ensures (forall x :: x0 <= x < x1 ==> m[y, x] == 0) ==> RowSum(m, y, x0, x1) == 0
    decreases x1 - x0
  {
    if x0 < x1 {
      RowSumBound(m, y, x0, x1 - 1);
    }
  }

  lemma {:induction false} RectSumBound(m: array2<int>, y0: int, y1: int, x0: int, x1: int)
    requires 0 <= y0 <= y1 <= m.Length0 && 0 <= x0 <= x1 <= m.Length1 && Gray(m)
    ensures 0 <= RectSum(m, y0, y1, x0, x1) <= 255 * (y1 - y0) * (x1 - x0)
    ensures AllZero(m) ==> RectSum(m, y0, y1, x0, x1) == 0
    decreases y1 - y0
  {
    if y0 < y1 {
      RectSumBound(m, y0, y1 - 1, x0, x1);
      RowSumBound(m, y1 - 1, x0, x1);
      assert 255 * (y1 - 1 - y0) * (x1 - x0) + 255 * (x1 - x0) == 255 * (y1 - y0) * (x1 - x0);
    }
  }

  /** The mean of `n` pixels summing to `sum`, divided by 255. */
  function Mean(sum: int, n: int): real
    requires n > 0
  {
    sum as real / (n as real * 255.0)
  }

  /** `crop.mean() / 255.0 if crop.size else 0.0` for the crop `m[y0:y1, x0:x1]`. */
  function MaskScore(m: array2<int>, b: Box): real
    reads m
  {
    var lx, hx := SliceBound(b.x0, m.Length1), SliceBound(b.x1, m.Length1);
    var ly, hy := SliceBound(b.y0, m.Length0), SliceBound(b.y1, m.Length0);
    if lx >= hx || ly >= hy then 0.0
    else
      MulPos(hy - ly, hx - lx);
      Mean(RectSum(m, ly, hy, lx, hx), (hy - ly) * (hx - lx))
  }

  /** The score of a gray crop is a share in [0, 1], and 0 on an all-zero mask. */
  lemma ScoreRange(m: array2<int>, b: Box)
    requires Gray(m)
    ensures 0.0 <= MaskScore(m, b) <= 1.0
    ensures AllZero(m) ==> MaskScore(m, b) == 0.0
  {
    var lx, hx := SliceBound(b.x0, m.Length1), SliceBound(b.x1, m.Length1);
    var ly, hy := SliceBound(b.y0, m.Length0), SliceBound(b.y1, m.Length0);
    if lx < hx && ly < hy {
      RectSumBound(m, ly, hy, lx, hx);
      var n := (hy - ly) * (hx - lx);
      MulPos(hy - ly, hx - lx);
      var sum := RectSum(m, ly, hy, lx, hx);
      assert sum <= 255 * n;
      assert MaskScore(m, b) == Mean(sum, n);
      if sum > 0 {
        RatioUnit(sum as real, n as real * 255.0);
      }
    }
  }

  /** A box widened by `padding` on every side and clamped to the raster. */
  function Padded(raw: Box, padding: int, width: int, height: int): Box {
    Box(MaxI(0, raw.x0 - padding), MaxI(0, raw.y0 - padding), MinI(width, raw.x1 + padding), MinI(height, raw.y1 + padding))
  }

  /** With a non-negative padding an in-raster box stays inside its padded box, which stays inside the raster. */
  lemma PaddedContains(raw: Box, padding: int, width: int, height: int)
    requires padding >= 0 && 0 <= raw.x0 && 0 <= raw.y0 && raw.x1 <= width && raw.y1 <= height
    ensures raw.Within(Padded(raw, padding, width, height))
    ensures Padded(raw, padding, width, height).Within(Box(0, 0, width, height))
  {
  }

  /** One iteration of the enrichment loop for a box that passed the area test. */
  function EnrichOne(raw: Box, combined: array2<int>, added: array2<int>, removed: array2<int>,
                     padding: int): Entry
    reads combined, added, removed
  {
    var b := Padded(raw, padding, combined.Length1, combined.Length0);
    var a, r := MaskScore(added, b), MaskScore(removed, b);
    Entry(b, MaskScore(combined, b), a - r, ClassifyRegion(a, r))
  }

  /** The enrichment loop: boxes under the area limit are skipped, the rest scored in order. */
  function Enrich(boxes: seq<Box>, combined: array2<int>, added: array2<int>, removed: array2<int>,
                  minArea: int, padding: int): (es: seq<Entry>)
    reads combined, added, removed
    ensures |es| <= |boxes|
  {
    if boxes == [] then []
    else
      var last := boxes[|boxes| - 1];
      Enrich(boxes[..|boxes| - 1], combined, added, removed, minArea, padding)
      + (if last.Area() < minArea then [] else [EnrichOne(last, combined, added, removed, padding)])
  }

  /** Each enriched entry comes from some box that passed the area test. */
  lemma {:induction false} EnrichSources(boxes: seq<Box>, combined: array2<int>, added: array2<int>,
                                         removed: array2<int>, minArea: int, padding: int)
    ensures forall e :: e in Enrich(boxes, combined, added, removed, minArea, padding) ==>
              exists b :: b in boxes && b.Area() >= minArea && e == EnrichOne(b, combined, added, removed, padding)
  {
    if boxes != [] {
      var init := boxes[..|boxes| - 1];
      EnrichSources(init, combined, added, removed, minArea, padding);
      forall e | e in Enrich(boxes, combined, added, removed, minArea, padding)
        ensures exists b :: b in boxes && b.Area() >= minArea && e == EnrichOne(b, combined, added, removed, padding)
      {
        if e in Enrich(init, combined, added, removed, minArea, padding) {
          var b :| b in init && b.Area() >= minArea && e == EnrichOne(b, combined, added, removed, padding);
          assert b in boxes;
        }
      }
    }
  }

  /** Each box that passed the area test has its enriched entry. */
  lemma {:induction false} EnrichKeeps(boxes: seq<Box>, combined: array2<int>, added: array2<int>,
                                       removed: array2<int>, minArea: int, padding: int)
    ensures forall b :: b in boxes && b.Area() >= minArea ==>
              EnrichOne(b, combined, added, removed, padding) in Enrich(boxes, combined, added, removed, minArea, padding)
  {
    if boxes != [] {
      var init := boxes[..|boxes| - 1];
      EnrichKeeps(init, combined, added, removed, minArea, padding);
      assert boxes == init + [boxes[|boxes| - 1]];
    }
  }

  /** Enriched types are change types, and scores are shares when the masks are gray. */
  lemma {:induction false} EnrichValues(boxes: seq<Box>, combined: array2<int>, added: array2<int>,
                                        removed: array2<int>, minArea: int, padding: int)
    requires Gray(combined)
    ensures forall e :: e in Enrich(boxes, combined, added, removed, minArea, padding) ==>
              IsChangeType(e.kind) && 0.0 <= e.score <= 1.0
  {
    EnrichSources(boxes, combined, added, removed, minArea, padding);
    forall e | e in Enrich(boxes, combined, added, removed, minArea, padding)
      ensures IsChangeType(e.kind) && 0.0 <= e.score <= 1.0
    {
      var b :| b in boxes && b.Area() >= minArea && e == EnrichOne(b, combined, added, removed, padding);
      ScoreRange(combined, Padded(b, padding, combined.Length1, combined.Length0));
    }
  }

  method EnrichBoxes(boxes: seq<Box>, combined: array2<int>, added: array2<int>, removed: array2<int>,
                     minArea: int, padding: int) returns (enriched: seq<Entry>)
    ensures enriched == Enrich(boxes, combined, added, removed, minArea, padding)
  {
    enriched := [];
    var i := 0;
    while i < |boxes|
      invariant 0 <= i <= |boxes|
      invariant enriched == Enrich(boxes[..i], combined, added, removed, minArea, padding)
    {
      assert boxes[..i + 1][..i] == boxes[..i];
      var raw := boxes[i];
      if raw.Area() >= minArea {
        var b := Padded(raw, padding, combined.Length1, combined.Length0);
        var addedScore := MaskScore(added, b);
        var removedScore := MaskScore(removed, b);
        var changeType := ClassifyRegion(addedScore, removedScore);
        var score := MaskScore(combined, b);
        enriched := enriched + [Entry(b, score, addedScore - removedScore, changeType)];
      }
      i := i + 1;
    }
    assert boxes[..i] == boxes;
  }

  /** `DiffRegion`. */
  datatype DiffRegion = DiffRegion(pageIndex: int, bboxPdf: RRect, bboxPx: Box, changeType: string,
                                   score: real, areaPts2: real)

  /** Pixels to points: `page.x0 + px * scale`, with the y axis kept top-down. */
  function ToRegion(e: Entry, page: RRect, scale: real, pageIndex: int): DiffRegion {
    var pdf := RRect(page.x0 + e.box.x0 as real * scale, page.y0 + e.box.y0 as real * scale,
                     page.x0 + e.box.x1 as real * scale, page.y0 + e.box.y1 as real * scale);
    DiffRegion(pageIndex, pdf, e.box, ResolveChangeType(e.diff, e.kind), e.score,
               (pdf.x1 - pdf.x0) * (pdf.y1 - pdf.y0))
  }

  /** The region's point area is its pixel area times the squared scale, and its corners scale from the page origin. */
  lemma ToRegionGeometry(e: Entry, page: RRect, scale: real, pageIndex: int)
    ensures var r := ToRegion(e, page, scale, pageIndex);
            r.areaPts2 == e.box.Area() as real * scale * scale
            && r.bboxPdf.x1 - r.bboxPdf.x0 == e.box.Width() as real * scale
            && r.bboxPdf.y1 - r.bboxPdf.y0 == e.box.Height() as real * scale
            && (scale > 0.0 && e.box.y0 < e.box.y1 ==> r.bboxPdf.y0 < r.bboxPdf.y1)
  {
    var w, h := e.box.Width() as real, e.box.Height() as real;
    assert (e.box.x1 as real * scale - e.box.x0 as real * scale) == w * scale;
    assert (e.box.y1 as real * scale - e.box.y0 as real * scale) == h * scale;
    assert e.box.Area() as real == w * h;
    assert (w * scale) * (h * scale) == w * h * scale * scale;
  }

  function ToRegions(es: seq<Entry>, page: RRect, scale: real, pageIndex: int): (rs: seq<DiffRegion>)
    ensures |rs| == |es|
    ensures forall i :: 0 <= i < |es| ==> rs[i] == ToRegion(es[i], page, scale, pageIndex)
  {
    if es == [] then []
    else ToRegions(es[..|es| - 1], page, scale, pageIndex) + [ToRegion(es[|es| - 1], page, scale, pageIndex)]
  }

  method MapRegions(es: seq<Entry>, page: RRect, scale: real, pageIndex: int) returns (regions: seq<DiffRegion>)
    ensures regions == ToRegions(es, page, scale, pageIndex)
  {
    regions := [];
    var i := 0;
    while i < |es|
      invariant 0 <= i <= |es|
      invariant regions == ToRegions(es[..i], page, scale, pageIndex)
    {
      assert es[..i + 1][..i] == es[..i];
      regions := regions + [ToRegion(es[i], page, scale, pageIndex)];
      i := i + 1;
    }
    assert es[..i] == es;
  }

  /** Tuples of four floats, compared lexicographically. */
  predicate RectLe(a: RRect, b: RRect) {
    a.x0 < b.x0 || (a.x0 == b.x0 && (a.y0 < b.y0 || (a.y0 == b.y0 &&
      (a.x1 < b.x1 || (a.x1 == b.x1 && a.y1 <= b.y1)))))
  }

  /** The sort key `(change_type, bbox_pdf)`. */
  predicate RegionLe(a: DiffRegion, b: DiffRegion) {
    (StrLe(a.changeType, b.changeType) && a.changeType != b.changeType)
    || (a.changeType == b.changeType && RectLe(a.bboxPdf, b.bboxPdf))
  }

  lemma RegionPreorder()
    ensures TotalPreorder(RegionLe)
  {
    forall a: DiffRegion, b: DiffRegion
      ensures RegionLe(a, b) || RegionLe(b, a)
    {
      StrLeTotal(a.changeType, b.changeType);
    }
    forall a: DiffRegion, b: DiffRegion, c: DiffRegion | RegionLe(a, b) && RegionLe(b, c)
      ensures RegionLe(a, c)
    {
      if a.changeType != b.changeType && b.changeType != c.changeType {
        StrLeTrans(a.changeType, b.changeType, c.changeType);
        if a.changeType == c.changeType {
          StrLeAntisym(a.changeType, b.changeType);
        }
      }
    }
  }

  /** `regions.sort(key=lambda r: (r.change_type, r.bbox_pdf))`. */
  function SortRegions(rs: seq<DiffRegion>): (r: seq<DiffRegion>)
    ensures multiset(r) == multiset(rs) && Sorted(r, RegionLe)
  {
    RegionPreorder();
    SortBySorted(rs, RegionLe);
    SortBy(rs, RegionLe)
  }

  /** The size of one pixel in points at `dpi` dots per inch. */
  function PointsPerPixel(dpi: int): real
    requires dpi != 0
  {
    72.0 / dpi as real
  }

  /** `_boxes_to_regions` as a function of its inputs; a zero dpi divides by zero. */
  function RegionsSpec(boxes: seq<Box>, combined: array2<int>, added: array2<int>, removed: array2<int>,
                       page: RRect, params: CompareParams, pageIndex: int): Result<seq<DiffRegion>>
    reads combined, added, removed
  {
    if params.dpi == 0 then Err(ZeroDivisionError)
    else
      var enriched := Enrich(boxes, combined, added, removed, params.minAreaPx, params.paddingPx);
      Ok(RegionsOf(enriched, page, PointsPerPixel(params.dpi), params.mergeIou, pageIndex))
  }

  /** The enriched entries merged, mapped to points at `scale` and sorted. */
  function RegionsOf(enriched: seq<Entry>, page: RRect, scale: real, mergeIou: real, pageIndex: int): seq<DiffRegion> {
    SortRegions(ToRegions(MergeBoxesSpec(enriched, mergeIou), page, scale, pageIndex))
  }

  /** `_boxes_to_regions`. */
  method BoxesToRegions(boxes: seq<Box>, combined: array2<int>, added: array2<int>, removed: array2<int>,
                        page: RRect, params: CompareParams, pageIndex: int) returns (r: Result<seq<DiffRegion>>)
    ensures r == RegionsSpec(boxes, combined, added, removed, page, params, pageIndex)
  {
    if params.dpi == 0 {
      return Err(ZeroDivisionError);
    }
    var scale := PointsPerPixel(params.dpi);
    var enriched := EnrichBoxes(boxes, combined, added, removed, params.minAreaPx, params.paddingPx);
    var regions := FinishRegions(enriched, page, scale, params.mergeIou, pageIndex);
    r := Ok(regions);
  }

  /** The part of `_boxes_to_regions` after enrichment: merge, map to points, sort. */
  method FinishRegions(enriched: seq<Entry>, page: RRect, scale: real, mergeIou: real, pageIndex: int)
    returns (regions: seq<DiffRegion>)
    ensures regions == RegionsOf(enriched, page, scale, mergeIou, pageIndex)
  {
    var merged := MergeBoxes(enriched, mergeIou);
    var mapped := MapRegions(merged, page, scale, pageIndex);
    regions := SortRegions(mapped);
  }

  /** The regions are sorted by (type, point box), are at most as many as the boxes, and carry change types on the page. */
  lemma RegionsShape(boxes: seq<Box>, combined: array2<int>, added: array2<int>, removed: array2<int>,
                     page: RRect, params: CompareParams, pageIndex: int)
    requires params.dpi != 0
    ensures var r := RegionsSpec(boxes, combined, added, removed, page, params, pageIndex);
            r.Ok? && Sorted(r.value, RegionLe) && |r.value| <= |boxes|
            && (forall g :: g in r.value ==> g.pageIndex == pageIndex && IsChangeType(g.changeType))
  {
    var enriched := Enrich(boxes, combined, added, removed, params.minAreaPx, params.paddingPx);
    var merged := MergeBoxesSpec(enriched, params.mergeIou);
    var scale := PointsPerPixel(params.dpi);
    var rs := ToRegions(merged, page, scale, pageIndex);
    var sorted := SortRegions(rs);
    assert |sorted| == |rs| by { assert |multiset(sorted)| == |multiset(rs)|; }
    forall g | g in sorted
      ensures g.pageIndex == pageIndex && IsChangeType(g.changeType)
    {
      assert g in multiset(rs);
      var i :| 0 <= i < |rs| && rs[i] == g;
      ResolveLaws(merged[i].diff, merged[i].kind);
      MergedKinds(enriched, params.mergeIou, boxes, combined, added, removed, params.minAreaPx, params.paddingPx);
      assert merged[i] in merged;
    }
  }

  /** Merging keeps every entry's type a change type. */
  lemma MergedKinds(enriched: seq<Entry>, mergeIou: real, boxes: seq<Box>, combined: array2<int>,
                    added: array2<int>, removed: array2<int>, minArea: int, padding: int)
    requires enriched == Enrich(boxes, combined, added, removed, minArea, padding)
    ensures forall e :: e in MergeBoxesSpec(enriched, mergeIou) ==> IsChangeType(e.kind)
  {
    EnrichSources(boxes, combined, added, removed, minArea, padding);
    assert forall e :: e in enriched ==> IsChangeType(e.kind);
    if !(mergeIou <= 0.0 || |enriched| <= 1) {
      var sorted := SortByCorner(enriched);
      assert forall e :: e in sorted ==> IsChangeType(e.kind) by {
        forall e | e in sorted ensures IsChangeType(e.kind) { assert e in multiset(enriched); }
      }
      MergeAllKinds(sorted, mergeIou);
    }
  }

  lemma {:induction false} FoldKindValid(acc: Entry, s: seq<Entry>)
    requires IsChangeType(acc.kind) && forall e :: e in s ==> IsChangeType(e.kind)
    ensures IsChangeType(Fold(acc, s).kind)
  {
    FoldKind(acc, s);
  }

  lemma {:induction false} MergeAllKinds(r: seq<Entry>, thr: real)
    requires forall e :: e in r ==> IsChangeType(e.kind)
    ensures forall e :: e in MergeAll(r, thr) ==> IsChangeType(e.kind)
    decreases |r|
  {
    if r != [] {
      var taken := Taken(r[0], r[1..], thr);
      var rest := Rest(r[0], r[1..], thr);
      PartitionMembers(r[0], r[1..], thr);
      assert forall e :: e in r[1..] ==> e in r;
      FoldKindValid(r[0], taken);
      MergeAllKinds(rest, thr);
    }
  }

  /**
   * With a non-negative padding, every in-raster candidate box that passes
   * the area test lies inside the pixel box of some reported region.
   */
  lemma RegionsCover(boxes: seq<Box>, combined: array2<int>, added: array2<int>, removed: array2<int>,
                     page: RRect, params: CompareParams, pageIndex: int, raw: Box)
    requires params.dpi != 0 && params.paddingPx >= 0
    requires raw in boxes && raw.Area() >= params.minAreaPx
    requires 0 <= raw.x0 && 0 <= raw.y0 && raw.x1 <= combined.Length1 && raw.y1 <= combined.Length0
    ensures var r := RegionsSpec(boxes, combined, added, removed, page, params, pageIndex);
            r.Ok? && exists g :: g in r.value && raw.Within(g.bboxPx)
  {
    var enriched := Enrich(boxes, combined, added, removed, params.minAreaPx, params.paddingPx);
    EnrichKeeps(boxes, combined, added, removed, params.minAreaPx, params.paddingPx);
    var e := EnrichOne(raw, combined, added, removed, params.paddingPx);
    assert e in enriched;
    PaddedContains(raw, params.paddingPx, combined.Length1, combined.Length0);
    var scale := PointsPerPixel(params.dpi);
    RegionsOfCover(enriched, page, scale, params.mergeIou, pageIndex, e);
    var g :| g in RegionsOf(enriched, page, scale, params.mergeIou, pageIndex) && e.box.Within(g.bboxPx);
    assert raw.Within(g.bboxPx);
  }

  /** Every enriched entry lies inside the pixel box of some region made from the entries. */
  lemma RegionsOfCover(enriched: seq<Entry>, page: RRect, scale: real, mergeIou: real, pageIndex: int, e: Entry)
    requires e in enriched
    ensures exists g :: g in RegionsOf(enriched, page, scale, mergeIou, pageIndex) && e.box.Within(g.bboxPx)
  {
    var merged := MergeBoxesSpec(enriched, mergeIou);
    var rs := ToRegions(merged, page, scale, pageIndex);
    var j: int;
    if mergeIou <= 0.0 || |enriched| <= 1 {
      j :| 0 <= j < |merged| && merged[j] == e;
    } else {
      assert e in multiset(SortByCorner(enriched));
      MergeCoversOne(SortByCorner(enriched), mergeIou, e);
      j :| 0 <= j < |merged| && e.box.Within(merged[j].box);
    }
    var g := rs[j];
    assert g.bboxPx == merged[j].box;
    assert g in multiset(SortRegions(rs));
  }

  /** No candidate boxes, no regions. */
  lemma RegionsEmpty(combined: array2<int>, added: array2<int>, removed: array2<int>,
                     page: RRect, params: CompareParams, pageIndex: int)
    requires params.dpi != 0
    ensures RegionsSpec([], combined, added, removed, page, params, pageIndex) == Ok([])
  {
    var r := RegionsSpec([], combined, added, removed, page, params, pageIndex);
    assert |r.value| == 0 by { assert |multiset(r.value)| == 0; }
  }
}
