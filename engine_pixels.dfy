/**
 * PDF rectangles to page pixels in the main engine (compare_engine.py,
 * `map_pdf_rect_to_pixels` and `words_to_pixel_boxes`). The source keeps the
 * page bounds in an attribute `_bounds` of the mapping function, set while a
 * page's words are converted and deleted afterwards; here that attribute is
 * the field of a `PixelMapper`.
 */
module EnginePixels {
  import opened Wrappers
  import opened Geometry
  import opened Text
  import opened EngineText

  /** `Zoom`: one factor for both axes, or a pair. */
  datatype Zoom = Uniform(z: real) | PerAxis(zx: real, zy: real)
  {
    function X(): real { if Uniform? then z else zx }
    function Y(): real { if Uniform? then z else zy }
  }

  /** `math.floor` and `math.ceil`. */
  function Floor(r: real): int { r.Floor }

  function Ceil(r: real): int
  {
    -((-r).Floor)
  }

  /** The `(x0, y0, width, height)` result. */
  datatype PixelRect = PixelRect(x0: int, y0: int, width: int, height: int)

  /** One axis of the mapping: the clamped start and the end, given an optional page size. */
  function AxisSpan(lo: int, hi: int, size: Option<int>): (int, int) {
    if size.Some? && size.value > 0 then
      var a := MaxI(0, MinI(lo, size.value - 1));
      (a, MaxI(a + 1, MinI(hi, size.value)))
    else (lo, MaxI(lo + 1, hi))
  }

  /** The page width and height of the optional bounds. */
  function WidthOf(bounds: Option<(int, int)>): Option<int> { if bounds.Some? then Some(bounds.value.0) else None }
  function HeightOf(bounds: Option<(int, int)>): Option<int> { if bounds.Some? then Some(bounds.value.1) else None }

  /** One axis: the scaled start rounded down and the scaled end rounded up, then clamped. */
  function AxisOf(lo: real, hi: real, z: real, size: Option<int>): (int, int) {
    AxisSpan(Floor(lo * z), Ceil(hi * z), size)
  }

  /** `map_pdf_rect_to_pixels` with the page bounds `bounds`. */
  function MapSpec(bounds: Option<(int, int)>, rect: RRect, zoom: Zoom): PixelRect {
    var xs := AxisOf(rect.x0, rect.x1, zoom.X(), WidthOf(bounds));
    var ys := AxisOf(rect.y0, rect.y1, zoom.Y(), HeightOf(bounds));
    PixelRect(xs.0, ys.0, MaxI(1, xs.1 - xs.0), MaxI(1, ys.1 - ys.0))
  }

  /** On each axis the end lies past the start, and within a positive page size. */
  lemma AxisSpanLaws(lo: int, hi: int, size: Option<int>)
    ensures var (a, b) := AxisSpan(lo, hi, size);
            a < b && (size.Some? && size.value > 0 ==> 0 <= a && b <= size.value)
  {
  }

  /**
   * The width and height are always at least 1, and with positive page
   * bounds `(pw, ph)` the pixel box lies inside `[0, pw] x [0, ph]`.
   */
  lemma MapLaws(bounds: Option<(int, int)>, rect: RRect, zoom: Zoom)
    ensures var r := MapSpec(bounds, rect, zoom);
            r.width >= 1 && r.height >= 1
            && (bounds.Some? && bounds.value.0 > 0 ==> 0 <= r.x0 && r.x0 + r.width <= bounds.value.0)
            && (bounds.Some? && bounds.value.1 > 0 ==> 0 <= r.y0 && r.y0 + r.height <= bounds.value.1)
  {
    AxisSpanLaws(Floor(rect.x0 * zoom.X()), Ceil(rect.x1 * zoom.X()), WidthOf(bounds));
    AxisSpanLaws(Floor(rect.y0 * zoom.Y()), Ceil(rect.y1 * zoom.Y()), HeightOf(bounds));
  }

  /** Without bounds the start is the floor of the scaled corner. */
  lemma MapUnbounded(rect: RRect, zoom: Zoom)
    ensures MapSpec(None, rect, zoom).x0 == Floor(rect.x0 * zoom.X())
    ensures MapSpec(None, rect, zoom).y0 == Floor(rect.y0 * zoom.Y())
  {
  }

  /** The mapping function together with its `_bounds` attribute. */
  class PixelMapper {
    var bounds: Option<(int, int)>

    constructor()
      ensures bounds == None
    {
      bounds := None;
    }

    /** `setattr(map_pdf_rect_to_pixels, "_bounds", (w, h))`. */
    method SetBounds(w: int, h: int)
      modifies this
      ensures bounds == Some((w, h))
    {
      bounds := Some((w, h));
    }

    /** `delattr(map_pdf_rect_to_pixels, "_bounds")` when the attribute is present. */
    method ClearBounds()
      modifies this
      ensures bounds == None
    {
      if bounds.Some? {
        bounds := None;
      }
    }

    /** `map_pdf_rect_to_pixels`. */
    method Map(rect: RRect, zoom: Zoom) returns (r: PixelRect)
      ensures r == MapSpec(bounds, rect, zoom)
    {
      var pageWidth, pageHeight: Option<int> := None, None;
      if bounds.Some? {
        pageWidth, pageHeight := Some(bounds.value.0), Some(bounds.value.1);
      }
      var zx, zy := zoom.X(), zoom.Y();
      var x0, x1 := MapAxis(rect.x0, rect.x1, zx, pageWidth);
      var y0, y1 := MapAxis(rect.y0, rect.y1, zy, pageHeight);
      r := PixelRect(x0, y0, MaxI(1, x1 - x0), MaxI(1, y1 - y0));
    }
  }

  /** The statements of `map_pdf_rect_to_pixels` for one axis. */
  method MapAxis(lo: real, hi: real, z: real, size: Option<int>) returns (a: int, b: int)
    ensures (a, b) == AxisOf(lo, hi, z, size)
  {
    a := Floor(lo * z);
    b := Ceil(hi * z);
    if size.Some? && size.value > 0 {
      a := MaxI(0, MinI(a, size.value - 1));
      b := MaxI(a + 1, MinI(b, size.value));
    } else {
      b := MaxI(a + 1, b);
    }
  }

  /** One entry of `page.get_text("words")`: how many fields it has, its box and its word. */
  datatype RawWord = RawWord(fields: nat, x0: real, y0: real, x1: real, y1: real, word: string)

  /** The word box an entry gives at page bounds `bounds`, or None when it is skipped. */
  function WordOf(e: RawWord, bounds: (int, int), zoom: Zoom, pageHeight: int): Option<WordBox> {
    if e.fields < 5 || e.word == "" then None
    else
      var text := Strip(e.word);
      if text == "" then None
      else
        var p := MapSpec(Some(bounds), RRect(e.x0, e.y0, e.x1, e.y1), zoom);
        if p.width <= 0 || p.height <= 0 then None
        else
          var box := RRect(p.x0 as real, p.y0 as real, (p.x0 + p.width) as real, (p.y0 + p.height) as real);
          var baseline := if pageHeight > 0 then MinI(p.y0 + p.height, pageHeight - 1) else p.y0 + p.height;
          Some(WordBox(text, box, MaxI(0, baseline)))
  }

  /** The word boxes of the entries, in order. */
  function WordBoxesSpec(entries: seq<RawWord>, bounds: (int, int), zoom: Zoom, pageHeight: int): seq<WordBox> {
    if entries == [] then []
    else
      var last := WordOf(entries[|entries| - 1], bounds, zoom, pageHeight);
      WordBoxesSpec(entries[..|entries| - 1], bounds, zoom, pageHeight)
        + (if last.Some? then [last.value] else [])
  }

  /**
   * `words_to_pixel_boxes` on the page's word entries. The page size in
   * pixels (`int(round(width * zx))`, likewise for the height) is passed in.
   * The mapper's bounds are set for the loop and removed afterwards.
   */
  method WordsToPixelBoxes(mapper: PixelMapper, entries: seq<RawWord>, zoom: Zoom,
                           pageWidth: int, pageHeight: int) returns (results: seq<WordBox>)
    modifies mapper
    ensures mapper.bounds == None
    ensures results == WordBoxesSpec(entries, (MaxI(1, pageWidth), MaxI(1, pageHeight)), zoom, pageHeight)
  {
    var bounds := (MaxI(1, pageWidth), MaxI(1, pageHeight));
    results := [];
    mapper.SetBounds(bounds.0, bounds.1);
    var i := 0;
    while i < |entries|
      invariant 0 <= i <= |entries| && mapper.bounds == Some(bounds)
      invariant results == WordBoxesSpec(entries[..i], bounds, zoom, pageHeight)
    {
      assert entries[..i + 1][..i] == entries[..i];
      var w := WordEntry(mapper, entries[i], zoom, pageHeight);
      if w.Some? {
        results := results + [w.value];
      }
      i := i + 1;
    }
    assert entries[..i] == entries;
    mapper.ClearBounds();
  }

  /** The body of the loop of `words_to_pixel_boxes` for one entry: the box it adds, or None where it `continue`s. */
  method WordEntry(mapper: PixelMapper, entry: RawWord, zoom: Zoom, pageHeight: int) returns (w: Option<WordBox>)
    requires mapper.bounds.Some?
    ensures w == WordOf(entry, mapper.bounds.value, zoom, pageHeight)
  {
    if entry.fields < 5 || entry.word == "" {
      return None;
    }
    var text := Strip(entry.word);
    if text == "" {
      return None;
    }
    var p := mapper.Map(RRect(entry.x0, entry.y0, entry.x1, entry.y1), zoom);
    if p.width <= 0 || p.height <= 0 {
      return None;
    }
    var bbox := RRect(p.x0 as real, p.y0 as real, (p.x0 + p.width) as real, (p.y0 + p.height) as real);
    var baseline := p.y0 + p.height;
    if pageHeight > 0 {
      baseline := MinI(baseline, pageHeight - 1);
    }
    w := Some(WordBox(text, bbox, MaxI(0, baseline)));
  }

  /**
   * Every word box has a stripped, non-empty text, a box of positive size
   * inside the page in pixels and a non-negative baseline, and there are
   * never more boxes than entries.
   */
  lemma {:induction false} WordBoxesShape(entries: seq<RawWord>, pageWidth: int, pageHeight: int, zoom: Zoom)
    ensures var bounds := (MaxI(1, pageWidth), MaxI(1, pageHeight));
            var ws := WordBoxesSpec(entries, bounds, zoom, pageHeight);
            |ws| <= |entries|
            && forall w :: w in ws ==>
                 w.text != "" && Strip(w.text) == w.text && w.baseline >= 0
                 && 0.0 <= w.box.x0 < w.box.x1 <= bounds.0 as real
                 && 0.0 <= w.box.y0 < w.box.y1 <= bounds.1 as real
  {
    var bounds := (MaxI(1, pageWidth), MaxI(1, pageHeight));
    if entries != [] {
      var init := entries[..|entries| - 1];
      WordBoxesShape(init, pageWidth, pageHeight, zoom);
      var e := entries[|entries| - 1];
      MapLaws(Some(bounds), RRect(e.x0, e.y0, e.x1, e.y1), zoom);
      if e.fields >= 5 && e.word != "" {
        StripIdempotent(e.word);
      }
    }
  }

  /** Stripping twice strips no more. */
  lemma StripIdempotent(s: string)
    ensures Strip(Strip(s)) == Strip(s)
  {
    StripNoSpace(Strip(s));
  }
}
