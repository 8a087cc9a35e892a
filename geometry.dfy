/** Rectangles shared by every engine: pixel boxes and PDF-point rectangles. */
module Geometry {
  /** A half-open integer pixel box (x0, y0, x1, y1). */
  datatype Box = Box(x0: int, y0: int, x1: int, y1: int)
  {
    function Width(): int { x1 - x0 }
    function Height(): int { y1 - y0 }
    function Area(): int { (x1 - x0) * (y1 - y0) }
    /** x0 <= x1 and y0 <= y1. */
    predicate WellFormed() { x0 <= x1 && y0 <= y1 }
    /** this lies inside `outer` */
    predicate Within(outer: Box) {
      outer.x0 <= x0 && outer.y0 <= y0 && x1 <= outer.x1 && y1 <= outer.y1
    }
  }

  /** A rectangle in PDF points (x0, y0, x1, y1). */
  datatype RRect = RRect(x0: real, y0: real, x1: real, y1: real)
  {
    function Width(): real { x1 - x0 }
    function Height(): real { y1 - y0 }
    predicate Within(outer: RRect) {
      outer.x0 <= x0 && outer.y0 <= y0 && x1 <= outer.x1 && y1 <= outer.y1
    }
  }

  function MinI(a: int, b: int): int { if a <= b then a else b }
  function MaxI(a: int, b: int): int { if a >= b then a else b }
  function MinR(a: real, b: real): real { if a <= b then a else b }
  function MaxR(a: real, b: real): real { if a >= b then a else b }
  function AbsR(a: real): real { if a < 0.0 then -a else a }

  /** Python's `int(x)` on a float: truncation toward zero. */
  function Trunc(r: real): (t: int)
    ensures 0.0 <= r ==> t as real <= r < t as real + 1.0
    ensures r < 0.0 ==> t as real - 1.0 < r <= t as real
  {
    if r >= 0.0 then r.Floor else -((-r).Floor)
  }

  /** Bounding union of two pixel boxes. */
  function Hull(a: Box, b: Box): (r: Box)
    ensures a.Within(r) && b.Within(r)
    ensures forall o: Box :: a.Within(o) && b.Within(o) ==> r.Within(o)
  {
    Box(MinI(a.x0, b.x0), MinI(a.y0, b.y0), MaxI(a.x1, b.x1), MaxI(a.y1, b.y1))
  }

  /** Bounding union of two point rectangles (`fitz.Rect.__or__` and the engines' min/max merges). */
  function HullR(a: RRect, b: RRect): (r: RRect)
    ensures a.Within(r) && b.Within(r)
    ensures forall o: RRect :: a.Within(o) && b.Within(o) ==> r.Within(o)
  {
    RRect(MinR(a.x0, b.x0), MinR(a.y0, b.y0), MaxR(a.x1, b.x1), MaxR(a.y1, b.y1))
  }

  lemma WithinTransR(a: RRect, b: RRect, c: RRect)
    requires a.Within(b) && b.Within(c)
    ensures a.Within(c)
  {
  }

  /** A positive part over a whole lies in (0, 1]. */
  lemma RatioUnit(n: real, d: real)
    requires 0.0 < n <= d
    ensures 0.0 < n / d <= 1.0
  {
    var q := n / d;
    assert q * d == n;
    assert (q - 1.0) * d <= 0.0;
  }

  function AsReal(b: Box): RRect { RRect(b.x0 as real, b.y0 as real, b.x1 as real, b.y1 as real) }

  /** Width and height of the overlap of two pixel boxes, clamped at zero. */
  function InterW(a: Box, b: Box): int { MaxI(0, MinI(a.x1, b.x1) - MaxI(a.x0, b.x0)) }
  function InterH(a: Box, b: Box): int { MaxI(0, MinI(a.y1, b.y1) - MaxI(a.y0, b.y0)) }
  function InterArea(a: Box, b: Box): int { InterW(a, b) * InterH(a, b) }

  lemma MulLe(a: int, b: int, c: int, d: int)
    requires 0 <= a <= c && 0 <= b <= d
    ensures a * b <= c * d
  {
    assert a * b <= c * b;
    assert c * b <= c * d;
  }

  lemma MulPos(a: int, b: int)
    requires a > 0 && b > 0
    ensures a * b > 0
  {
  }

  /** A positive overlap is no larger than either box, so the union area bounds it. */
  lemma InterBound(a: Box, b: Box)
    ensures InterArea(a, b) >= 0
    ensures InterArea(a, b) > 0 <==> InterW(a, b) > 0 && InterH(a, b) > 0
    ensures InterArea(a, b) > 0 ==> InterArea(a, b) <= a.Area() && InterArea(a, b) <= b.Area()
  {
    MulLe(0, 0, InterW(a, b), InterH(a, b));
    if InterW(a, b) > 0 && InterH(a, b) > 0 {
      MulPos(InterW(a, b), InterH(a, b));
      MulLe(InterW(a, b), InterH(a, b), a.x1 - a.x0, a.y1 - a.y0);
      MulLe(InterW(a, b), InterH(a, b), b.x1 - b.x0, b.y1 - b.y0);
    } else if InterW(a, b) == 0 {
      assert InterArea(a, b) == 0 * InterH(a, b);
    } else {
      assert InterArea(a, b) == InterW(a, b) * 0;
    }
  }

  lemma InterSym(a: Box, b: Box)
    ensures InterW(a, b) == InterW(b, a) && InterH(a, b) == InterH(b, a) && InterArea(a, b) == InterArea(b, a)
  {
  }

  /** Width and height of the overlap of two point rectangles, clamped at zero. */
  function InterWR(a: RRect, b: RRect): real { MaxR(0.0, MinR(a.x1, b.x1) - MaxR(a.x0, b.x0)) }
  function InterHR(a: RRect, b: RRect): real { MaxR(0.0, MinR(a.y1, b.y1) - MaxR(a.y0, b.y0)) }
  function InterAreaR(a: RRect, b: RRect): real { InterWR(a, b) * InterHR(a, b) }
  function AreaR(a: RRect): real { (a.x1 - a.x0) * (a.y1 - a.y0) }

  lemma MulLeR(a: real, b: real, c: real, d: real)
    requires 0.0 <= a <= c && 0.0 <= b <= d
    ensures a * b <= c * d
  {
    assert a * b <= c * b;
    assert c * b <= c * d;
  }

  /** The real-valued counterpart of InterBound. */
  lemma InterBoundR(a: RRect, b: RRect)
    ensures InterAreaR(a, b) >= 0.0
    ensures InterAreaR(a, b) > 0.0 <==> InterWR(a, b) > 0.0 && InterHR(a, b) > 0.0
    ensures InterAreaR(a, b) > 0.0 ==> InterAreaR(a, b) <= AreaR(a) && InterAreaR(a, b) <= AreaR(b)
  {
    MulLeR(0.0, 0.0, InterWR(a, b), InterHR(a, b));
    if InterWR(a, b) > 0.0 && InterHR(a, b) > 0.0 {
      assert InterAreaR(a, b) > 0.0;
      MulLeR(InterWR(a, b), InterHR(a, b), a.x1 - a.x0, a.y1 - a.y0);
      MulLeR(InterWR(a, b), InterHR(a, b), b.x1 - b.x0, b.y1 - b.y0);
    } else if InterWR(a, b) == 0.0 {
      assert InterAreaR(a, b) == 0.0 * InterHR(a, b);
    } else {
      assert InterAreaR(a, b) == InterWR(a, b) * 0.0;
    }
  }

  lemma InterSymR(a: RRect, b: RRect)
    ensures InterWR(a, b) == InterWR(b, a) && InterHR(a, b) == InterHR(b, a)
    ensures InterAreaR(a, b) == InterAreaR(b, a)
  {
  }
}
