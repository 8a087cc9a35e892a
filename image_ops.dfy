/**
 * The image helpers that run without OpenCV (src/compareset/utils/image_ops.py):
 * the identity alignment, the strict-threshold flood fill and the
 * largest-first non-maximum suppression of pixel boxes.
 */
module ImageOps {
  import opened Wrappers
  import opened Geometry
  import opened Sorting
  import opened Labeling
  import opened CompareMasks
  import CompareMerge

  /** `align_images`: both images come back unchanged with a zero shift (dx, dy). */
  function AlignImages<T>(imgA: T, imgB: T): (r: (T, T, real, real))
    ensures r.0 == imgA && r.1 == imgB && r.2 == 0.0 && r.3 == 0.0
  {
    (imgA, imgB, 0.0, 0.0)
  }

  // ---------------------------------------------------------------- IoU

  /**
   * `_iou` of this file: zero without overlap, otherwise the overlap over the
   * union.  Unlike the raster engine's copy it has no guard on the union; a
   * positive overlap keeps the union positive, so it never divides by zero.
   */
  function Iou(a: Box, b: Box): (r: real)
    ensures 0.0 <= r <= 1.0
    ensures r > 0.0 <==> InterArea(a, b) > 0
  {
    var inter := InterArea(a, b);
    InterBound(a, b);
    if inter == 0 then 0.0
    else
      RatioUnit(inter as real, (a.Area() + b.Area() - inter) as real);
      inter as real / (a.Area() + b.Area() - inter) as real
  }

  lemma IouSym(a: Box, b: Box)
    ensures Iou(a, b) == Iou(b, a)
  {
    InterSym(a, b);
  }

  /** A box of positive area overlaps itself completely. */
  lemma IouSelf(a: Box)
    requires a.Width() > 0 && a.Height() > 0
    ensures Iou(a, a) == 1.0
  {
    assert InterW(a, a) == a.Width() && InterH(a, a) == a.Height();
    MulPos(a.Width(), a.Height());
  }

  /** The missing guard makes no difference: both copies of `_iou` agree on every pair. */
  lemma IouAgrees(a: Box, b: Box)
    ensures Iou(a, b) == CompareMerge.Iou(a, b)
  {
    InterBound(a, b);
  }

  // ---------------------------------------------------------------- flood fill

  /** numpy broadcasting of two rasters: on each axis the sizes agree or one of them is 1. */
  predicate Broadcastable(a: array2<int>, b: array2<int>) {
    (a.Length0 == b.Length0 || a.Length0 == 1 || b.Length0 == 1)
    && (a.Length1 == b.Length1 || a.Length1 == 1 || b.Length1 == 1)
  }

  /** The broadcast size on one axis: a size 1 stretches to the other size. */
  function BDim(n: nat, m: nat): nat { if n == 1 then m else n }

  /** The index a broadcast operand reads: a stretched axis always reads 0. */
  function BIdx(i: int, n: nat): int { if n == 1 then 0 else i }

  /** `imgA - imgB` at one pixel of the broadcast shape. */
  function BroadcastDiff(a: array2<int>, b: array2<int>, y: int, x: int): int
    reads a, b
    requires Broadcastable(a, b)
    requires 0 <= y < BDim(a.Length0, b.Length0) && 0 <= x < BDim(a.Length1, b.Length1)
  {
    a[BIdx(y, a.Length0), BIdx(x, a.Length1)] - b[BIdx(y, b.Length0), BIdx(x, b.Length1)]
  }

  /** `diff` has the broadcast shape and is set exactly where the difference is strictly above the threshold. */
  ghost predicate MaskOf(imgA: array2<int>, imgB: array2<int>, diff: array2<bool>, diffThresh: int)
    reads imgA, imgB, diff
  {
    Broadcastable(imgA, imgB)
    && diff.Length0 == BDim(imgA.Length0, imgB.Length0) && diff.Length1 == BDim(imgA.Length1, imgB.Length1)
    && forall y, x :: 0 <= y < diff.Length0 && 0 <= x < diff.Length1 ==>
         (diff[y, x] <==> Abs(BroadcastDiff(imgA, imgB, y, x)) > diffThresh)
  }

  /**
   * `np.abs(imgA - imgB) > diff_thresh`: a strict comparison, unlike
   * `_threshold`, over the broadcast shape; shapes that do not broadcast
   * raise numpy's ValueError.
   */
  method DiffMask(imgA: array2<int>, imgB: array2<int>, diffThresh: int) returns (r: Result<array2<bool>>)
    ensures r.Err? <==> !Broadcastable(imgA, imgB)
    ensures r.Err? ==> r.error == ValueError("operands could not be broadcast together")
    ensures r.Ok? ==> fresh(r.value) && MaskOf(imgA, imgB, r.value, diffThresh)
  {
    if !Broadcastable(imgA, imgB) {
      return Err(ValueError("operands could not be broadcast together"));
    }
    var h, w := BDim(imgA.Length0, imgB.Length0), BDim(imgA.Length1, imgB.Length1);
    var diff := new bool[h, w]((y, x) reads imgA, imgB =>
      if Broadcastable(imgA, imgB) && 0 <= y < h && 0 <= x < w then Abs(BroadcastDiff(imgA, imgB, y, x)) > diffThresh
      else false);
    return Ok(diff);
  }

  /** On rasters of one shape the broadcast mask is the plain pixelwise mask, and identical rasters set no pixel. */
  lemma SameShapeMask(imgA: array2<int>, imgB: array2<int>, diff: array2<bool>, diffThresh: int)
    requires MaskOf(imgA, imgB, diff, diffThresh)
    ensures SameShape(imgA, imgB) ==> diff.Length0 == imgA.Length0 && diff.Length1 == imgA.Length1
    ensures SameShape(imgA, imgB) ==> forall y, x :: 0 <= y < imgA.Length0 && 0 <= x < imgA.Length1 ==>
                                        (diff[y, x] <==> Abs(imgA[y, x] - imgB[y, x]) > diffThresh)
    ensures Identical(imgA, imgB) && diffThresh >= 0 ==>
              forall y, x :: 0 <= y < diff.Length0 && 0 <= x < diff.Length1 ==> !diff[y, x]
  {
    if SameShape(imgA, imgB) {
      forall y, x | 0 <= y < imgA.Length0 && 0 <= x < imgA.Length1
        ensures BroadcastDiff(imgA, imgB, y, x) == imgA[y, x] - imgB[y, x]
      {
        assert BIdx(y, imgA.Length0) == y && BIdx(x, imgA.Length1) == x;
      }
    }
  }

  /**
   * What the flood fill promises of a mask: each component is a distinct
   * 8-connected set of set pixels, together they hold every set pixel, in
   * scan order of their first pixels; each box is tight and half-open, and
   * kept exactly when its area reaches `minAreaPx`.
   */
  ghost predicate RegionsOf(diff: array2<bool>, minAreaPx: int, rects: seq<Box>, comps: seq<seq<Pixel>>, all: seq<Box>)
    reads diff
  {
    |all| == |comps| && rects == Kept(all, minAreaPx)
    && (forall i :: 0 <= i < |comps| ==> Component(diff, comps[i]) && TightBox(all[i], comps[i]))
    && Distinct(Flatten(comps))
    && (forall p :: IsSet(diff, p) <==> p in Flatten(comps))
    && (forall i, j :: 0 <= i < j < |comps| ==>
          comps[i] != [] && comps[j] != [] && Before(comps[i][0], comps[j][0]))
    && (forall b :: b in rects ==>
          0 <= b.x0 < b.x1 <= diff.Length1 && 0 <= b.y0 < b.y1 <= diff.Length0 && b.Area() >= minAreaPx)
  }

  /** The flood fill of `find_diff_regions` over a computed mask; a mask with no pixel set gives no region. */
  method Regions(diff: array2<bool>, minAreaPx: int)
    returns (rects: seq<Box>, ghost comps: seq<seq<Pixel>>, ghost all: seq<Box>)
    ensures RegionsOf(diff, minAreaPx, rects, comps, all)
    ensures (forall y, x :: 0 <= y < diff.Length0 && 0 <= x < diff.Length1 ==> !diff[y, x]) ==> rects == []
  {
    rects, comps, all := LabelComponents(diff, minAreaPx);
    KeptBoxes(diff, rects, comps, all, minAreaPx);
    SomePixelSet(diff, comps);
  }

  /**
   * `find_diff_regions`: the pixels that differ by more than `diffThresh`,
   * grouped by the 8-connected flood fill.  `mode`, `dilatePx` and `erodePx`
   * are accepted and have no effect.  Each component is found once; its box
   * is tight and half-open and kept exactly when its area reaches
   * `minAreaPx`; identical images give no region.  Shapes that do not
   * broadcast are numpy's ValueError.
   */
  method FindDiffRegions(imgA: array2<int>, imgB: array2<int>, mode: string, diffThresh: int,
                         dilatePx: int, erodePx: int, minAreaPx: int)
    returns (r: Result<seq<Box>>, ghost diff: array2<bool>, ghost comps: seq<seq<Pixel>>, ghost all: seq<Box>)
    requires Gray(imgA) && Gray(imgB)
    ensures r.Err? <==> !Broadcastable(imgA, imgB)
    ensures r.Err? ==> r.error == ValueError("operands could not be broadcast together")
    ensures r.Ok? ==> MaskOf(imgA, imgB, diff, diffThresh)
    ensures SameShape(imgA, imgB) ==> r.Ok? && diff.Length0 == imgA.Length0 && diff.Length1 == imgA.Length1
    ensures SameShape(imgA, imgB) ==> forall y, x :: 0 <= y < imgA.Length0 && 0 <= x < imgA.Length1 ==>
                                        (diff[y, x] <==> Abs(imgA[y, x] - imgB[y, x]) > diffThresh)
    ensures r.Ok? ==> RegionsOf(diff, minAreaPx, r.value, comps, all)
    ensures Identical(imgA, imgB) && diffThresh >= 0 ==> r == Ok([])
  {
    var m := DiffMask(imgA, imgB, diffThresh);
    if m.Err? {
      var none := new bool[0, 0];
      r, diff, comps, all := Err(m.error), none, [], [];
      return;
    }
    var d := m.value;
    diff := d;
    SameShapeMask(imgA, imgB, d, diffThresh);
    var rects;
    rects, comps, all := Regions(d, minAreaPx);
    r := Ok(rects);
  }

  // ---------------------------------------------------------------- non-maximum suppression

  /** Larger area first. */
  predicate AreaGe(a: Box, b: Box) { a.Area() >= b.Area() }

  lemma AreaGePreorder()
    ensures TotalPreorder(AreaGe)
  {
  }

  /** `sorted(rects, key=area, reverse=True)`. */
  function SortByArea(rects: seq<Box>): (r: seq<Box>)
    ensures multiset(r) == multiset(rects) && Sorted(r, AreaGe)
  {
    AreaGePreorder();
    SortBySorted(rects, AreaGe);
    SortBy(rects, AreaGe)
  }

  /** Whether a box overlaps `cur` by less than the threshold. */
  function Clear(cur: Box, thr: real): Box -> bool {
    b => Iou(cur, b) < thr
  }

  /** The boxes of `s` that overlap `cur` by less than the threshold, in order. */
  function Below(cur: Box, s: seq<Box>, thr: real): (r: seq<Box>)
    ensures |r| <= |s|
    ensures forall b :: b in r <==> b in s && Iou(cur, b) < thr
    ensures SubseqOf(r, s)
  {
    FilterIn(s, Clear(cur, thr));
    FilterSubseq(s, Clear(cur, thr));
    Filter(s, Clear(cur, thr))
  }

  /** The suppression loop over an ordered list: keep the head, drop what it overlaps enough. */
  function Suppress(s: seq<Box>, thr: real): (r: seq<Box>)
    ensures |r| <= |s| && (r == [] <==> s == [])
    decreases |s|
  {
    if s == [] then [] else [s[0]] + Suppress(Below(s[0], s[1..], thr), thr)
  }

  /** What `nms_merge` returns for `rects`. */
  function NmsSpec(rects: seq<Box>, iouThr: real): seq<Box> {
    if rects == [] then rects else Suppress(SortByArea(rects), iouThr)
  }

  /** `nms_merge`: pop the largest box, keep it, and keep only the boxes it overlaps too little. */
  method NmsMerge(rects: seq<Box>, iouThr: real) returns (keep: seq<Box>)
    ensures keep == NmsSpec(rects, iouThr)
    ensures keep == [] <==> rects == []
  {
    if rects == [] {
      return rects;
    }
    var remaining := SortByArea(rects);
    keep := [];
    while remaining != []
      invariant keep + Suppress(remaining, iouThr) == Suppress(SortByArea(rects), iouThr)
      decreases |remaining|
    {
      var cur := remaining[0];
      var rest := remaining[1..];
      keep := keep + [cur];
      var rem := [];
      var i := 0;
      while i < |rest|
        invariant 0 <= i <= |rest|
        invariant rem == Below(cur, rest[..i], iouThr)
      {
        BelowSnoc(cur, rest, i, iouThr);
        if Iou(cur, rest[i]) < iouThr {
          rem := rem + [rest[i]];
        }
        i := i + 1;
      }
      assert rest[..i] == rest;
      remaining := rem;
    }
  }

  lemma BelowSnoc(cur: Box, s: seq<Box>, i: nat, thr: real)
    requires i < |s|
    ensures Below(cur, s[..i + 1], thr) == Below(cur, s[..i], thr) + (if Iou(cur, s[i]) < thr then [s[i]] else [])
  {
    FilterSnoc(s, i, Clear(cur, thr));
  }

  /** Every kept box comes from the input. */
  lemma {:induction false} SuppressSubset(s: seq<Box>, thr: real)
    ensures forall b :: b in Suppress(s, thr) ==> b in s
    decreases |s|
  {
    if s != [] {
      SuppressSubset(Below(s[0], s[1..], thr), thr);
    }
  }

  /** A filter of an ordered list stays ordered. */
  lemma BelowSorted(cur: Box, s: seq<Box>, thr: real)
    requires Sorted(s, AreaGe)
    ensures Sorted(Below(cur, s, thr), AreaGe)
  {
    FilterSorted(s, Clear(cur, thr), AreaGe);
  }

  lemma {:induction false} SuppressSorted(s: seq<Box>, thr: real)
    requires Sorted(s, AreaGe)
    ensures Sorted(Suppress(s, thr), AreaGe)
    decreases |s|
  {
    if s != [] {
      var b := Below(s[0], s[1..], thr);
      assert Sorted(s[1..], AreaGe) by {
        forall i, j | 0 <= i < j < |s[1..]| ensures AreaGe(s[1..][i], s[1..][j]) {
          assert s[1..][i] == s[i + 1] && s[1..][j] == s[j + 1];
        }
      }
      BelowSorted(s[0], s[1..], thr);
      SuppressSorted(b, thr);
      SuppressSubset(b, thr);
      var t := Suppress(b, thr);
      forall x | x in t ensures AreaGe(s[0], x) {
        assert x in s[1..];
        var k :| 0 <= k < |s[1..]| && s[1..][k] == x;
        assert s[k + 1] == x;
      }
      forall i, j | 0 <= i < j < |[s[0]] + t| ensures AreaGe(([s[0]] + t)[i], ([s[0]] + t)[j]) {
        if i == 0 {
          assert ([s[0]] + t)[j] == t[j - 1];
          assert t[j - 1] in t;
        } else {
          assert ([s[0]] + t)[i] == t[i - 1] && ([s[0]] + t)[j] == t[j - 1];
        }
      }
    }
  }

  /** No two kept boxes overlap by the threshold or more. */
  predicate Separated(k: seq<Box>, thr: real) {
    forall i, j :: 0 <= i < j < |k| ==> Iou(k[i], k[j]) < thr
  }

  lemma {:induction false} SuppressSeparated(s: seq<Box>, thr: real)
    ensures Separated(Suppress(s, thr), thr)
    decreases |s|
  {
    if s != [] {
      var b := Below(s[0], s[1..], thr);
      SuppressSeparated(b, thr);
      SuppressSubset(b, thr);
      var t := Suppress(b, thr);
      forall i, j | 0 <= i < j < |[s[0]] + t| ensures Iou(([s[0]] + t)[i], ([s[0]] + t)[j]) < thr {
        if i == 0 {
          assert ([s[0]] + t)[j] == t[j - 1];
          assert t[j - 1] in t;
        } else {
          assert ([s[0]] + t)[i] == t[i - 1] && ([s[0]] + t)[j] == t[j - 1];
        }
      }
    }
  }

  /** A list whose head overlaps no later box enough passes the filter whole. */
  lemma BelowAll(cur: Box, s: seq<Box>, thr: real)
    requires forall k :: 0 <= k < |s| ==> Iou(cur, s[k]) < thr
    ensures Below(cur, s, thr) == s
  {
    forall k | 0 <= k < |s|
      ensures Clear(cur, thr)(s[k])
    {
    }
    FilterAll(s, Clear(cur, thr));
  }

  lemma SeparatedHead(k: seq<Box>, thr: real)
    requires Separated(k, thr) && k != []
    ensures forall j :: 0 <= j < |k[1..]| ==> Iou(k[0], k[1..][j]) < thr
  {
    forall j | 0 <= j < |k[1..]| ensures Iou(k[0], k[1..][j]) < thr {
      assert k[1..][j] == k[j + 1];
    }
  }

  lemma SeparatedTail(k: seq<Box>, thr: real)
    requires Separated(k, thr) && k != []
    ensures Separated(k[1..], thr)
  {
    forall i, j | 0 <= i < j < |k[1..]| ensures Iou(k[1..][i], k[1..][j]) < thr {
      assert k[1..][i] == k[i + 1] && k[1..][j] == k[j + 1];
    }
  }

  /** A separated list is its own suppression. */
  lemma {:induction false} SuppressFixed(k: seq<Box>, thr: real)
    requires Separated(k, thr)
    ensures Suppress(k, thr) == k
    decreases |k|
  {
    if k != [] {
      HeadClear(k, thr);
      SeparatedTail(k, thr);
      SuppressFixed(k[1..], thr);
      SuppressCons(k, thr);
    }
  }

  /** In a separated list the head suppresses nothing behind it. */
  lemma HeadClear(k: seq<Box>, thr: real)
    requires Separated(k, thr) && k != []
    ensures Below(k[0], k[1..], thr) == k[1..]
  {
    SeparatedHead(k, thr);
    BelowAll(k[0], k[1..], thr);
  }

  /** A head that suppresses nothing, over a fixed tail, gives a fixed list. */
  lemma SuppressCons(k: seq<Box>, thr: real)
    requires k != [] && Below(k[0], k[1..], thr) == k[1..] && Suppress(k[1..], thr) == k[1..]
    ensures Suppress(k, thr) == k
  {
    assert k == [k[0]] + k[1..];
  }

  /**
   * What `nms_merge` keeps: a subset of the input, largest area first, headed
   * by a largest box, no two of its boxes overlapping by the threshold.
   */
  lemma NmsShape(rects: seq<Box>, iouThr: real)
    ensures forall b :: b in NmsSpec(rects, iouThr) ==> b in rects
    ensures Sorted(NmsSpec(rects, iouThr), AreaGe)
    ensures Separated(NmsSpec(rects, iouThr), iouThr)
    ensures rects != [] ==> forall b :: b in rects ==> b.Area() <= NmsSpec(rects, iouThr)[0].Area()
  {
    if rects != [] {
      var s := SortByArea(rects);
      SuppressSubset(s, iouThr);
      SuppressSorted(s, iouThr);
      SuppressSeparated(s, iouThr);
      forall b | b in NmsSpec(rects, iouThr) ensures b in rects {
        assert b in s;
        assert b in multiset(s);
      }
      forall b | b in rects ensures b.Area() <= NmsSpec(rects, iouThr)[0].Area() {
        LargestFirst(rects, s, b);
      }
    }
  }

  lemma LargestFirst(rects: seq<Box>, s: seq<Box>, b: Box)
    requires multiset(s) == multiset(rects) && Sorted(s, AreaGe) && b in rects
    ensures s != [] && b.Area() <= s[0].Area()
  {
    assert b in multiset(rects);
    assert b in s;
    var k :| 0 <= k < |s| && s[k] == b;
    assert k == 0 || AreaGe(s[0], s[k]);
  }

  /** Suppressing a second time keeps everything: `nms_merge` is idempotent. */
  lemma NmsIdempotent(rects: seq<Box>, iouThr: real)
    ensures NmsSpec(NmsSpec(rects, iouThr), iouThr) == NmsSpec(rects, iouThr)
  {
    var k := NmsSpec(rects, iouThr);
    if k != [] {
      NmsShape(rects, iouThr);
      SortBySame(k, AreaGe);
      SuppressFixed(k, iouThr);
    }
  }
}
