/**
 * Mapping pixel boxes to PDF points (src/compareset/utils/pdf_ops.py,
 * `px_to_pdf_rects`): scale by 72/dpi, add the page origin and clamp to the
 * page rectangle.
 */
module PdfOps {
  import opened Wrappers
  import opened Geometry

  /** One pixel box in points, clamped to the page. */
  function PxToPdf(b: Box, dpi: int, page: RRect): (r: RRect)
    requires dpi != 0
    ensures r.x0 >= page.x0 && r.y0 >= page.y0
    ensures r.x1 <= page.x1 && r.y1 <= page.y1
  {
    var scale := 72.0 / dpi as real;
    RRect(MaxR(page.x0, page.x0 + b.x0 as real * scale), MaxR(page.y0, page.y0 + b.y0 as real * scale),
          MinR(page.x1, page.x0 + b.x1 as real * scale), MinR(page.y1, page.y0 + b.y1 as real * scale))
  }

  /** A box inside the page maps linearly: the page origin plus pixels times 72/dpi. */
  lemma PxToPdfInside(b: Box, dpi: int, page: RRect)
    requires dpi > 0 && b.x0 >= 0 && b.y0 >= 0
    requires page.x0 + b.x1 as real * 72.0 / dpi as real <= page.x1
    requires page.y0 + b.y1 as real * 72.0 / dpi as real <= page.y1
    ensures PxToPdf(b, dpi, page) == RRect(page.x0 + b.x0 as real * 72.0 / dpi as real,
                                           page.y0 + b.y0 as real * 72.0 / dpi as real,
                                           page.x0 + b.x1 as real * 72.0 / dpi as real,
                                           page.y0 + b.y1 as real * 72.0 / dpi as real)
  {
    var s := 72.0 / dpi as real;
    assert s > 0.0;
    assert b.x0 as real * s >= 0.0 && b.y0 as real * s >= 0.0;
    assert b.x0 as real * 72.0 / dpi as real == b.x0 as real * s;
    assert b.y0 as real * 72.0 / dpi as real == b.y0 as real * s;
    assert b.x1 as real * 72.0 / dpi as real == b.x1 as real * s;
    assert b.y1 as real * 72.0 / dpi as real == b.y1 as real * s;
  }

  /** `px_to_pdf_rects`: a ZeroDivisionError when dpi is 0, else one rectangle per box, in order. */
  method PxToPdfRects(rectsPx: seq<Box>, dpi: int, page: RRect) returns (r: Result<seq<RRect>>)
    ensures dpi == 0 <==> r.Err?
    ensures r.Err? ==> r.error == ZeroDivisionError
    ensures r.Ok? ==> |r.value| == |rectsPx| && forall i :: 0 <= i < |rectsPx| ==> r.value[i] == PxToPdf(rectsPx[i], dpi, page)
  {
    if dpi == 0 {
      return Err(ZeroDivisionError);
    }
    var out: seq<RRect> := [];
    var i := 0;
    while i < |rectsPx|
      invariant 0 <= i <= |rectsPx|
      invariant |out| == i && forall k :: 0 <= k < i ==> out[k] == PxToPdf(rectsPx[k], dpi, page)
    {
      out := out + [PxToPdf(rectsPx[i], dpi, page)];
      i := i + 1;
    }
    r := Ok(out);
  }
}
