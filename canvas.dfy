/**
 * Centring a rendered page on a larger canvas, as the letterboxing of
 * compareset_mvp.py, compare_set_gui.py and compare7_gui.py does: the canvas
 * is filled with one grey level and the image is copied in at the offset
 * `(size - side) // 2` on each axis.
 */
module Canvas {
  /** The offset that centres a side of length `n` on a side of length `m`: `(m - n) // 2`. */
  function CenterOffset(m: int, n: int): (o: int)
    ensures n <= m ==> 0 <= o && o + n <= m
    ensures 2 * o <= m - n <= 2 * o + 1
  {
    (m - n) / 2
  }

  /** The pixel at (y, x) of a canvas of grey level `bg` with `img` copied in at (xoff, yoff). */
  function Placed(img: array2<int>, xoff: int, yoff: int, bg: int, y: int, x: int): int
    reads img
  {
    if yoff <= y < yoff + img.Length0 && xoff <= x < xoff + img.Length1 then img[y - yoff, x - xoff] else bg
  }

  /** `canvas[yoff:yoff + h, xoff:xoff + w] = img`. */
  method Paste(canvas: array2<int>, img: array2<int>, xoff: nat, yoff: nat)
    requires canvas != img
    requires yoff + img.Length0 <= canvas.Length0 && xoff + img.Length1 <= canvas.Length1
    modifies canvas
    ensures forall y, x :: 0 <= y < canvas.Length0 && 0 <= x < canvas.Length1 ==>
              canvas[y, x] == if yoff <= y < yoff + img.Length0 && xoff <= x < xoff + img.Length1
                              then img[y - yoff, x - xoff] else old(canvas[y, x])
  {
    var i := 0;
    while i < img.Length0
      invariant 0 <= i <= img.Length0
      invariant forall y, x :: 0 <= y < canvas.Length0 && 0 <= x < canvas.Length1 ==>
                  canvas[y, x] == if yoff <= y < yoff + i && xoff <= x < xoff + img.Length1
                                  then img[y - yoff, x - xoff] else old(canvas[y, x])
    {
      var j := 0;
      while j < img.Length1
        invariant 0 <= j <= img.Length1
        invariant forall y, x :: 0 <= y < canvas.Length0 && 0 <= x < canvas.Length1 ==>
                    canvas[y, x] == if (yoff <= y < yoff + i && xoff <= x < xoff + img.Length1)
                                       || (y == yoff + i && xoff <= x < xoff + j)
                                    then img[y - yoff, x - xoff] else old(canvas[y, x])
      {
        canvas[yoff + i, xoff + j] := img[i, j];
        j := j + 1;
      }
      i := i + 1;
    }
  }

  /**
   * A new `h` by `w` canvas of grey level `bg` with `img` centred on it;
   * the image must fit, which every caller ensures by taking the larger
   * render's sides.
   */
  method Center(img: array2<int>, h: nat, w: nat, bg: int) returns (canvas: array2<int>, xoff: nat, yoff: nat)
    requires img.Length0 <= h && img.Length1 <= w
    ensures fresh(canvas) && canvas.Length0 == h && canvas.Length1 == w
    ensures xoff == CenterOffset(w, img.Length1) && yoff == CenterOffset(h, img.Length0)
    ensures forall y, x :: 0 <= y < h && 0 <= x < w ==> canvas[y, x] == Placed(img, xoff, yoff, bg, y, x)
  {
    canvas := new int[h, w]((y, x) => bg);
    xoff := (w - img.Length1) / 2;
    yoff := (h - img.Length0) / 2;
    Paste(canvas, img, xoff, yoff);
  }
}
