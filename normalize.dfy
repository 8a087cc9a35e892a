/**
 * Aligning a target PDF's coordinate space to a reference
 * (src/compareset/utils/normalize.py): the content box of a page, the
 * per-page scale and translation, and the page loop.
 */
module Normalize {
  import opened Wrappers
  import opened Geometry

  // ---------------------------------------------------------------- _content_bbox

  /** An entry of `item[1:]` of a path item: a list or tuple of at least two numbers, or anything else. */
  datatype PointArg = Pair(x: real, y: real) | NotPair

  /** A drawing from `get_drawings`: its "rect" when present, and the `item[1:]` of each of its items. */
  datatype Drawing = Drawing(rect: Option<RRect>, items: seq<seq<PointArg>>)

  /** The points the `xs`/`ys` loops collect from the items, in order. */
  function ItemPoints(items: seq<seq<PointArg>>): seq<(real, real)> {
    if items == [] then [] else ItemPoints(items[..|items| - 1]) + Pairs(items[|items| - 1])
  }

  function Pairs(args: seq<PointArg>): seq<(real, real)> {
    if args == [] then []
    else Pairs(args[..|args| - 1]) + (if args[|args| - 1].Pair? then [(args[|args| - 1].x, args[|args| - 1].y)] else [])
  }

  function MinX(ps: seq<(real, real)>): real requires ps != [] {
    if |ps| == 1 then ps[0].0 else MinR(MinX(ps[..|ps| - 1]), ps[|ps| - 1].0)
  }
  function MinY(ps: seq<(real, real)>): real requires ps != [] {
    if |ps| == 1 then ps[0].1 else MinR(MinY(ps[..|ps| - 1]), ps[|ps| - 1].1)
  }
  function MaxX(ps: seq<(real, real)>): real requires ps != [] {
    if |ps| == 1 then ps[0].0 else MaxR(MaxX(ps[..|ps| - 1]), ps[|ps| - 1].0)
  }
  function MaxY(ps: seq<(real, real)>): real requires ps != [] {
    if |ps| == 1 then ps[0].1 else MaxR(MaxY(ps[..|ps| - 1]), ps[|ps| - 1].1)
  }

  /** The box of a set of points holds every one of them. */
  lemma {:induction false} PointsInBox(ps: seq<(real, real)>)
    requires ps != []
    ensures forall p :: p in ps ==> MinX(ps) <= p.0 <= MaxX(ps) && MinY(ps) <= p.1 <= MaxY(ps)
  {
    if |ps| > 1 {
      PointsInBox(ps[..|ps| - 1]);
      assert forall p :: p in ps ==> p in ps[..|ps| - 1] || p == ps[|ps| - 1];
    }
  }

  /** PyMuPDF's `Rect.is_empty`: no area, or inverted on an axis. */
  predicate Empty(r: RRect) { r.x0 >= r.x1 || r.y0 >= r.y1 }

  /** `bool(rect)`: a Rect is false exactly when all four coordinates are 0. */
  predicate Truthy(r: RRect) { !(r.x0 == 0.0 && r.y0 == 0.0 && r.x1 == 0.0 && r.y1 == 0.0) }

  /** `min(xs), min(ys), max(xs), max(ys)` of the collected points. */
  function PointsBox(ps: seq<(real, real)>): RRect
    requires ps != []
  {
    RRect(MinX(ps), MinY(ps), MaxX(ps), MaxY(ps))
  }

  /** Points all at the origin give the all-zero box. */
  lemma {:induction false} ZeroPoints(ps: seq<(real, real)>)
    requires ps != [] && forall p :: p in ps ==> p == (0.0, 0.0)
    ensures !Truthy(PointsBox(ps))
  {
    if |ps| > 1 {
      var init := ps[..|ps| - 1];
      assert forall p :: p in init ==> p in ps;
      ZeroPoints(init);
      assert ps[|ps| - 1] in ps;
    } else {
      assert ps[0] in ps;
    }
  }

  /**
   * The box a drawing contributes: its "rect" when that is true; otherwise
   * the box of its item points, when there are points and that box is true;
   * otherwise none (`if not r: ...` then `if r:`).
   */
  function DrawingBox(d: Drawing): Option<RRect> {
    if d.rect.Some? && Truthy(d.rect.value) then d.rect
    else
      var ps := ItemPoints(d.items);
      if ps == [] || !Truthy(PointsBox(ps)) then None else Some(PointsBox(ps))
  }

  /**
   * A true rect is kept as it is; a missing or all-zero rect is replaced by
   * the box of the item points, which holds every point, and the drawing
   * contributes nothing exactly when every item point is the origin.
   * Whatever is contributed is a true Rect.
   */
  lemma DrawingBoxLaws(d: Drawing)
    ensures d.rect.Some? && Truthy(d.rect.value) ==> DrawingBox(d) == d.rect
    ensures DrawingBox(d).Some? ==> Truthy(DrawingBox(d).value)
    ensures (d.rect.None? || !Truthy(d.rect.value)) && DrawingBox(d).None? ==>
              forall p :: p in ItemPoints(d.items) ==> p == (0.0, 0.0)
    ensures (d.rect.None? || !Truthy(d.rect.value)) && (forall p :: p in ItemPoints(d.items) ==> p == (0.0, 0.0)) ==>
              DrawingBox(d).None?
    ensures (d.rect.None? || !Truthy(d.rect.value)) && DrawingBox(d).Some? ==>
              var b := DrawingBox(d).value;
              forall p :: p in ItemPoints(d.items) ==> b.x0 <= p.0 <= b.x1 && b.y0 <= p.1 <= b.y1
  {
    var ps := ItemPoints(d.items);
    if ps != [] {
      PointsInBox(ps);
      if forall p :: p in ps ==> p == (0.0, 0.0) {
        ZeroPoints(ps);
      } else {
        var q :| q in ps && q != (0.0, 0.0);
        assert q.0 != 0.0 || q.1 != 0.0;
        assert MinX(ps) <= q.0 <= MaxX(ps) && MinY(ps) <= q.1 <= MaxY(ps);
      }
    }
  }

  /** The `boxes` list: the drawing boxes in order, then every text block. */
  function DrawingBoxes(drawings: seq<Drawing>): seq<RRect> {
    if drawings == [] then []
    else
      var b := DrawingBox(drawings[|drawings| - 1]);
      DrawingBoxes(drawings[..|drawings| - 1]) + (if b.Some? then [b.value] else [])
  }

  /**
   * `a |= b`, PyMuPDF's `include_rect`: an empty `b` changes nothing, an
   * empty `a` is replaced by `b`, and two non-empty rects give their hull.
   */
  function Include(a: RRect, b: RRect): (r: RRect)
    ensures !Empty(b) ==> b.Within(r) && !Empty(r)
    ensures !Empty(a) ==> a.Within(r)
    ensures Empty(b) ==> r == a
  {
    if Empty(b) then a else if Empty(a) then b else HullR(a, b)
  }

  /** The union of `boxes[0]` with every later box, left to right (`rect |= b`). */
  function UnionAll(boxes: seq<RRect>): RRect
    requires boxes != []
  {
    if |boxes| == 1 then boxes[0] else Include(UnionAll(boxes[..|boxes| - 1]), boxes[|boxes| - 1])
  }

  /**
   * The union holds every non-empty box; it is non-empty exactly when some
   * box is, and when every box is empty it is the first box.
   */
  lemma {:induction false} UnionAllHolds(boxes: seq<RRect>)
    requires boxes != []
    ensures forall b :: b in boxes && !Empty(b) ==> b.Within(UnionAll(boxes))
    ensures (exists b :: b in boxes && !Empty(b)) <==> !Empty(UnionAll(boxes))
    ensures (forall b :: b in boxes ==> Empty(b)) ==> UnionAll(boxes) == boxes[0]
  {
    if |boxes| > 1 {
      var p, last := boxes[..|boxes| - 1], boxes[|boxes| - 1];
      UnionAllHolds(p);
      assert forall c :: c in boxes <==> c in p || c == last;
      assert p[0] == boxes[0];
    } else {
      assert forall c :: c in boxes <==> c == boxes[0];
    }
  }

  /** When some box is non-empty, the union lies inside any rectangle that holds every non-empty box. */
  lemma {:induction false} UnionAllLeast(boxes: seq<RRect>, o: RRect)
    requires boxes != []
    requires forall b :: b in boxes && !Empty(b) ==> b.Within(o)
    ensures (exists b :: b in boxes && !Empty(b)) ==> UnionAll(boxes).Within(o)
  {
    if |boxes| > 1 {
      var p, last := boxes[..|boxes| - 1], boxes[|boxes| - 1];
      assert forall c :: c in boxes <==> c in p || c == last;
      UnionAllHolds(p);
      UnionAllLeast(p, o);
    } else {
      assert forall c :: c in boxes <==> c == boxes[0];
    }
  }

  /** What `_content_bbox` returns for a page's drawings and text block boxes. */
  function ContentBboxSpec(drawings: seq<Drawing>, blocks: seq<RRect>): Option<RRect> {
    var boxes := DrawingBoxes(drawings) + blocks;
    if boxes == [] then None else Some(UnionAll(boxes))
  }

  /** The `xs`/`ys` loops over the items of one drawing. */
  method CollectPoints(items: seq<seq<PointArg>>) returns (ps: seq<(real, real)>)
    ensures ps == ItemPoints(items)
  {
    ps := [];
    var i := 0;
    while i < |items|
      invariant 0 <= i <= |items| && ps == ItemPoints(items[..i])
    {
      assert items[..i + 1][..i] == items[..i];
      var args := items[i];
      var j := 0;
      ghost var before := ps;
      while j < |args|
        invariant 0 <= j <= |args| && ps == before + Pairs(args[..j])
      {
        assert args[..j + 1][..j] == args[..j];
        if args[j].Pair? {
          ps := ps + [(args[j].x, args[j].y)];
        }
        j := j + 1;
      }
      assert args[..j] == args;
      i := i + 1;
    }
    assert items[..i] == items;
  }

  /** `_content_bbox`: collect the boxes of the drawings and text blocks, then union them. */
  method ContentBbox(drawings: seq<Drawing>, blocks: seq<RRect>) returns (r: Option<RRect>)
    ensures r == ContentBboxSpec(drawings, blocks)
  {
    var boxes: seq<RRect> := [];
    var i := 0;
    while i < |drawings|
      invariant 0 <= i <= |drawings| && boxes == DrawingBoxes(drawings[..i])
    {
      assert drawings[..i + 1][..i] == drawings[..i];
      var d := drawings[i];
      var box := d.rect;
      if box.None? || !Truthy(box.value) {
        var ps := CollectPoints(d.items);
        if ps != [] {
          box := Some(RRect(MinX(ps), MinY(ps), MaxX(ps), MaxY(ps)));
        }
      }
      if box.Some? && Truthy(box.value) {
        boxes := boxes + [box.value];
      }
      i := i + 1;
    }
    assert drawings[..i] == drawings;
    var k := 0;
    while k < |blocks|
      invariant 0 <= k <= |blocks| && boxes == DrawingBoxes(drawings) + blocks[..k]
    {
      assert blocks[..k + 1] == blocks[..k] + [blocks[k]];
      boxes := boxes + [blocks[k]];
      k := k + 1;
    }
    assert blocks[..k] == blocks;
    if boxes == [] {
      return None;
    }
    var rect := boxes[0];
    var j := 1;
    while j < |boxes|
      invariant 1 <= j <= |boxes| && rect == UnionAll(boxes[..j])
    {
      assert boxes[..j + 1][..j] == boxes[..j];
      rect := Include(rect, boxes[j]);
      j := j + 1;
    }
    assert boxes[..j] == boxes;
    r := Some(rect);
  }

  /** The boxes the drawing loop collects that are not empty. */
  predicate NonEmptyIn(drawings: seq<Drawing>, blocks: seq<RRect>) {
    (exists b :: b in blocks && !Empty(b))
    || exists i :: 0 <= i < |drawings| && DrawingBox(drawings[i]).Some? && !Empty(DrawingBox(drawings[i]).value)
  }

  /**
   * There is a content box exactly when there is a text block or a drawing
   * that contributes a box; it holds every non-empty text block and drawing
   * box, and it is non-empty exactly when one of them is.
   */
  lemma ContentBboxLaws(drawings: seq<Drawing>, blocks: seq<RRect>)
    ensures ContentBboxSpec(drawings, blocks).Some? <==>
              blocks != [] || exists i :: 0 <= i < |drawings| && DrawingBox(drawings[i]).Some?
    ensures ContentBboxSpec(drawings, blocks).Some? ==>
              forall b :: b in blocks && !Empty(b) ==> b.Within(ContentBboxSpec(drawings, blocks).value)
    ensures ContentBboxSpec(drawings, blocks).Some? ==>
              forall i :: 0 <= i < |drawings| && DrawingBox(drawings[i]).Some? && !Empty(DrawingBox(drawings[i]).value) ==>
                DrawingBox(drawings[i]).value.Within(ContentBboxSpec(drawings, blocks).value)
    ensures ContentBboxSpec(drawings, blocks).Some? ==>
              (!Empty(ContentBboxSpec(drawings, blocks).value) <==> NonEmptyIn(drawings, blocks))
  {
    var boxes := DrawingBoxes(drawings) + blocks;
    DrawingRectsKept(drawings);
    assert forall b :: b in boxes <==> b in DrawingBoxes(drawings) || b in blocks;
    if boxes != [] {
      UnionAllHolds(boxes);
    }
  }

  /** A content box with a non-empty part lies inside any rectangle holding every non-empty box. */
  lemma ContentBboxLeast(drawings: seq<Drawing>, blocks: seq<RRect>, o: RRect)
    requires forall b :: b in blocks && !Empty(b) ==> b.Within(o)
    requires forall i :: 0 <= i < |drawings| && DrawingBox(drawings[i]).Some? && !Empty(DrawingBox(drawings[i]).value) ==>
               DrawingBox(drawings[i]).value.Within(o)
    ensures ContentBboxSpec(drawings, blocks).Some? && NonEmptyIn(drawings, blocks) ==>
              ContentBboxSpec(drawings, blocks).value.Within(o)
  {
    var boxes := DrawingBoxes(drawings) + blocks;
    DrawingRectsKept(drawings);
    assert forall b :: b in boxes <==> b in DrawingBoxes(drawings) || b in blocks;
    if boxes != [] {
      UnionAllLeast(boxes, o);
    }
  }

  /** Every contributed drawing box is collected, and every collected drawing box comes from a drawing. */
  lemma {:induction false} DrawingRectsKept(drawings: seq<Drawing>)
    ensures forall i :: 0 <= i < |drawings| && DrawingBox(drawings[i]).Some? ==>
              DrawingBox(drawings[i]).value in DrawingBoxes(drawings)
    ensures forall b :: b in DrawingBoxes(drawings) ==>
              exists i :: 0 <= i < |drawings| && DrawingBox(drawings[i]) == Some(b)
  {
    if drawings != [] {
      var p := drawings[..|drawings| - 1];
      DrawingRectsKept(p);
      assert forall i :: 0 <= i < |p| ==> p[i] == drawings[i];
    }
  }

  /**
   * A horizontal rule (a zero-height rect) beside a text block: the rule is
   * empty, so the content box is the text block's box alone.
   */
  lemma RuleBesideBlock()
    ensures ContentBboxSpec([Drawing(Some(RRect(0.0, 100.0, 500.0, 100.0)), [])], [RRect(50.0, 50.0, 60.0, 60.0)])
            == Some(RRect(50.0, 50.0, 60.0, 60.0))
  {
    var d := Drawing(Some(RRect(0.0, 100.0, 500.0, 100.0)), []);
    var rule, block := RRect(0.0, 100.0, 500.0, 100.0), RRect(50.0, 50.0, 60.0, 60.0);
    assert DrawingBoxes([d]) == DrawingBoxes([d][..0]) + [rule];
    assert DrawingBoxes([d]) + [block] == [rule, block];
    assert [rule, block][..1] == [rule];
    assert UnionAll([rule, block]) == Include(rule, block);
  }

  /** A drawing whose rect is `Rect(0, 0, 0, 0)` and which has no item points contributes nothing. */
  lemma ZeroRectDropped()
    ensures ContentBboxSpec([Drawing(Some(RRect(0.0, 0.0, 0.0, 0.0)), [])], []).None?
  {
    var d := Drawing(Some(RRect(0.0, 0.0, 0.0, 0.0)), []);
    assert DrawingBoxes([d]) == DrawingBoxes([d][..0]);
  }

  // ---------------------------------------------------------------- per-page transform

  /** `PageTransform` and the destination rectangle of `show_pdf_page`. */
  datatype Placement = Placement(scale: real, tx: real, ty: real, dest: RRect)

  /**
   * The transform of one page pair: the reference and target content boxes
   * (already defaulted to the page rectangles), the target page and the
   * reference page.
   */
  function PlacePage(refBox: RRect, tgtBox: RRect, tgtPage: RRect, refPage: RRect): (p: Placement)
    ensures tgtBox.Width() == 0.0 || tgtBox.Height() == 0.0 ==> p == Placement(1.0, 0.0, 0.0, refPage)
    ensures tgtBox.Width() != 0.0 && tgtBox.Height() != 0.0 ==>
              p.scale == MinR(refBox.Width() / tgtBox.Width(), refBox.Height() / tgtBox.Height())
    ensures tgtBox.Width() != 0.0 && tgtBox.Height() != 0.0 ==>
              p.dest == RRect(p.tx, p.ty, p.tx + tgtPage.Width() * p.scale, p.ty + tgtPage.Height() * p.scale)
  {
    if tgtBox.Width() == 0.0 || tgtBox.Height() == 0.0 then Placement(1.0, 0.0, 0.0, refPage)
    else
      var sx := refBox.Width() / tgtBox.Width();
      var sy := refBox.Height() / tgtBox.Height();
      var scale := MinR(sx, sy);
      var tx := refBox.x0 - tgtBox.x0 * scale + (refBox.Width() - tgtBox.Width() * scale) / 2.0;
      var ty := refBox.y0 - tgtBox.y0 * scale + (refBox.Height() - tgtBox.Height() * scale) / 2.0;
      Placement(scale, tx, ty, RRect(tx, ty, tx + tgtPage.Width() * scale, ty + tgtPage.Height() * scale))
  }

  /**
   * The scaled target content box is centred on the reference content box,
   * and with positive sizes it fits inside it.
   */
  lemma PlacePageCentres(refBox: RRect, tgtBox: RRect, tgtPage: RRect, refPage: RRect)
    requires tgtBox.Width() != 0.0 && tgtBox.Height() != 0.0
    ensures var p := PlacePage(refBox, tgtBox, tgtPage, refPage);
            tgtBox.x0 * p.scale + p.tx + tgtBox.Width() * p.scale / 2.0 == refBox.x0 + refBox.Width() / 2.0
            && tgtBox.y0 * p.scale + p.ty + tgtBox.Height() * p.scale / 2.0 == refBox.y0 + refBox.Height() / 2.0
  {
  }

  lemma PlacePageFits(refBox: RRect, tgtBox: RRect, tgtPage: RRect, refPage: RRect)
    requires tgtBox.Width() > 0.0 && tgtBox.Height() > 0.0 && refBox.Width() >= 0.0 && refBox.Height() >= 0.0
    ensures var p := PlacePage(refBox, tgtBox, tgtPage, refPage);
            p.scale >= 0.0 && tgtBox.Width() * p.scale <= refBox.Width() && tgtBox.Height() * p.scale <= refBox.Height()
  {
    var sx := refBox.Width() / tgtBox.Width();
    var sy := refBox.Height() / tgtBox.Height();
    assert sx * tgtBox.Width() == refBox.Width();
    assert sy * tgtBox.Height() == refBox.Height();
    var s := MinR(sx, sy);
    MulMono(s, sx, tgtBox.Width());
    MulMono(s, sy, tgtBox.Height());
  }

  lemma MulMono(a: real, b: real, c: real)
    requires a <= b && c > 0.0
    ensures a * c <= b * c
  {
  }

  /** The content widths of the bundled test, 100 against 80, give the scale 1.25. */
  lemma PlacePageExample()
    ensures PlacePage(RRect(50.0, 50.0, 150.0, 150.0), RRect(10.0, 10.0, 90.0, 90.0),
                      RRect(0.0, 0.0, 100.0, 100.0), RRect(0.0, 0.0, 200.0, 200.0)).scale == 1.25
  {
    var refBox, tgtBox := RRect(50.0, 50.0, 150.0, 150.0), RRect(10.0, 10.0, 90.0, 90.0);
    assert refBox.Width() == 100.0 && refBox.Height() == 100.0;
    assert tgtBox.Width() == 80.0 && tgtBox.Height() == 80.0;
    assert 100.0 / 80.0 == 1.25;
  }

  // ---------------------------------------------------------------- the page loop

  /** A page: its rectangle, its drawings and the boxes of its text blocks. */
  datatype Page = Page(rect: RRect, drawings: seq<Drawing>, blocks: seq<RRect>)

  /** `doc[i] if i < len(doc) else doc[-1]`. */
  function PageAt(doc: seq<Page>, i: nat): Page
    requires doc != []
  {
    if i < |doc| then doc[i] else doc[|doc| - 1]
  }

  /** `_content_bbox(page) or page.rect`: a missing or all-zero content box falls back to the page. */
  function ContentOrRect(p: Page): RRect {
    var c := ContentBboxSpec(p.drawings, p.blocks);
    if c.Some? && Truthy(c.value) then c.value else p.rect
  }

  /**
   * With some non-empty text block or drawing box, the box used is the
   * content box and holds every such box; without one it is the page rect
   * or an empty content box.
   */
  lemma ContentOrRectLaws(p: Page)
    ensures NonEmptyIn(p.drawings, p.blocks) ==>
              Some(ContentOrRect(p)) == ContentBboxSpec(p.drawings, p.blocks) && !Empty(ContentOrRect(p))
              && (forall b :: b in p.blocks && !Empty(b) ==> b.Within(ContentOrRect(p)))
    ensures !NonEmptyIn(p.drawings, p.blocks) ==> ContentOrRect(p) == p.rect || Empty(ContentOrRect(p))
    ensures ContentBboxSpec(p.drawings, p.blocks).None? ==> ContentOrRect(p) == p.rect
    ensures ContentBboxSpec(p.drawings, p.blocks).Some? && !Truthy(ContentBboxSpec(p.drawings, p.blocks).value) ==>
              ContentOrRect(p) == p.rect
  {
    ContentBboxLaws(p.drawings, p.blocks);
    var c := ContentBboxSpec(p.drawings, p.blocks);
    if NonEmptyIn(p.drawings, p.blocks) {
      if (exists b :: b in p.blocks && !Empty(b)) {
        assert c.Some?;
      } else {
        var i :| 0 <= i < |p.drawings| && DrawingBox(p.drawings[i]).Some? && !Empty(DrawingBox(p.drawings[i]).value);
        assert c.Some?;
      }
    }
  }

  function PlaceAt(docRef: seq<Page>, docTgt: seq<Page>, i: nat): Placement
    requires docRef != [] && docTgt != []
  {
    var rp, tp := PageAt(docRef, i), PageAt(docTgt, i);
    PlacePage(ContentOrRect(rp), ContentOrRect(tp), tp.rect, rp.rect)
  }

  /**
   * `normalize_pdf_to_reference` over page values: one output page of the
   * reference page's size and one transform per index below the larger page
   * count; the shorter document's last page stands in for missing ones.
   * `doc[-1]` of an empty document is an IndexError, and so is drawing page
   * `i` of a target shorter than the reference (`show_pdf_page` reads the
   * target's page `i` itself, not the stand-in).
   */
  method NormalizePages(docRef: seq<Page>, docTgt: seq<Page>)
    returns (r: Result<(seq<(real, real)>, seq<Placement>)>)
    ensures r.Err? <==> (|docRef| != |docTgt| && (docRef == [] || docTgt == [])) || |docTgt| < |docRef|
    ensures r.Ok? ==> var n := if |docRef| >= |docTgt| then |docRef| else |docTgt|;
              |r.value.0| == n && |r.value.1| == n
              && forall i :: 0 <= i < n ==>
                   r.value.1[i] == PlaceAt(docRef, docTgt, i)
                   && r.value.0[i] == (PageAt(docRef, i).rect.Width(), PageAt(docRef, i).rect.Height())
  {
    var maxPages := if |docRef| >= |docTgt| then |docRef| else |docTgt|;
    var sizes: seq<(real, real)> := [];
    var transforms: seq<Placement> := [];
    var i := 0;
    while i < maxPages
      invariant 0 <= i <= maxPages && |sizes| == i && |transforms| == i
      invariant i > 0 ==> docRef != [] && docTgt != [] && i <= |docTgt|
      invariant forall k :: 0 <= k < i ==>
                  transforms[k] == PlaceAt(docRef, docTgt, k)
                  && sizes[k] == (PageAt(docRef, k).rect.Width(), PageAt(docRef, k).rect.Height())
    {
      if docRef == [] || docTgt == [] {
        return Err(IndexError);
      }
      var refPage := PageAt(docRef, i);
      var tgtPage := PageAt(docTgt, i);
      var refBox := ContentBbox(refPage.drawings, refPage.blocks);
      var tgtBox := ContentBbox(tgtPage.drawings, tgtPage.blocks);
      var rb := if refBox.Some? && Truthy(refBox.value) then refBox.value else refPage.rect;
      var tb := if tgtBox.Some? && Truthy(tgtBox.value) then tgtBox.value else tgtPage.rect;
      var place := PlacePage(rb, tb, tgtPage.rect, refPage.rect);
      sizes := sizes + [(refPage.rect.Width(), refPage.rect.Height())];
      if i >= |docTgt| {
        return Err(IndexError);
      }
      transforms := transforms + [place];
      i := i + 1;
    }
    r := Ok((sizes, transforms));
  }
}
