/**
 * What the vector engines share: the point-space `_iou` (pdf_diff.py,
 * comparador.py and pdf_svg_compare.py hold the same code) and the page
 * comparison that matches old boxes to new ones by IoU, reports unmatched
 * old boxes as removed, unmatched new ones as added, and a matched pair
 * whose texts differ on both sides (pdf_diff.py `_compare_page`,
 * backend.py `_compare_pages`).
 */
module VectorMatch {
  import opened Wrappers
  import opened Geometry
  import opened Greedy
  import opened Sorting

  /**
   * `_iou`: zero unless the overlap has positive area, else the overlap over
   * the union (zero for a zero union, which a positive overlap rules out).
   */
  function Iou(a: RRect, b: RRect): (r: real)
    ensures 0.0 <= r <= 1.0
    ensures r > 0.0 <==> InterAreaR(a, b) > 0.0
  {
    var inter := InterAreaR(a, b);
    InterBoundR(a, b);
    if inter == 0.0 then 0.0
    else
      var union := AreaR(a) + AreaR(b) - inter;
      if union != 0.0 then
        RatioUnit(inter, union);
        inter / union
      else 0.0
  }

  lemma IouSym(a: RRect, b: RRect)
    ensures Iou(a, b) == Iou(b, a)
  {
    InterSymR(a, b);
  }

  /** A box of positive area overlaps itself completely. */
  lemma IouSelf(a: RRect)
    requires a.x0 < a.x1 && a.y0 < a.y1
    ensures Iou(a, a) == 1.0
  {
    assert InterWR(a, a) == a.x1 - a.x0 && InterHR(a, a) == a.y1 - a.y0;
    assert InterAreaR(a, a) == AreaR(a);
    MulLeR(0.0, 0.0, a.x1 - a.x0, a.y1 - a.y0);
    assert InterAreaR(a, a) > 0.0 by {
      assert (a.x1 - a.x0) * (a.y1 - a.y0) > 0.0;
    }
  }

  /** The values the IoU tests expect: 1/7 for two 2x2 squares offset by one. */
  lemma IouOffsetSquares()
    ensures Iou(RRect(0.0, 0.0, 2.0, 2.0), RRect(1.0, 1.0, 3.0, 3.0)) == 1.0 / 7.0
  {
    var a, b := RRect(0.0, 0.0, 2.0, 2.0), RRect(1.0, 1.0, 3.0, 3.0);
    assert InterWR(a, b) == 1.0 && InterHR(a, b) == 1.0;
    assert AreaR(a) == 4.0 && AreaR(b) == 4.0;
  }

  /** 25/175 for two 10x10 squares offset by five. */
  lemma IouOffsetTens()
    ensures Iou(RRect(0.0, 0.0, 10.0, 10.0), RRect(5.0, 5.0, 15.0, 15.0)) == 25.0 / 175.0
  {
    var a, b := RRect(0.0, 0.0, 10.0, 10.0), RRect(5.0, 5.0, 15.0, 15.0);
    assert InterWR(a, b) == 5.0 && InterHR(a, b) == 5.0;
    assert AreaR(a) == 100.0 && AreaR(b) == 100.0;
  }

  /** Disjoint boxes give 0. */
  lemma IouDisjoint()
    ensures Iou(RRect(0.0, 0.0, 10.0, 10.0), RRect(20.0, 20.0, 30.0, 30.0)) == 0.0
  {
    var a, b := RRect(0.0, 0.0, 10.0, 10.0), RRect(20.0, 20.0, 30.0, 30.0);
    assert InterWR(a, b) == 0.0;
  }

  /** A box with its text (empty for drawings and images). */
  datatype Item = Item(box: RRect, text: string)

  /** The match test of the page comparisons: IoU at least `thr`. */
  function Overlaps(thr: real): (Item, Item) -> bool {
    (o: Item, n: Item) => Iou(o.box, n.box) >= thr
  }

  /**
   * The entries reported while walking the old items: a lost item is
   * removed, and a matched pair whose texts `differ` is removed and added.
   */
  function Reported(olds: seq<Item>, news: seq<Item>, partner: seq<Option<nat>>, differ: (string, string) -> bool)
    : (seq<Item>, seq<Item>)
    requires |partner| == |olds|
  {
    if olds == [] then ([], [])
    else
      var k := |olds| - 1;
      var prev := Reported(olds[..k], news, partner[..k], differ);
      var p := partner[k];
      if p.None? then (prev.0 + [olds[k]], prev.1)
      else if p.value < |news| && differ(olds[k].text, news[p.value].text) then (prev.0 + [olds[k]], prev.1 + [news[p.value]])
      else prev
  }

  /** The removed and added lists of one page at threshold `thr`. */
  function PairSpec(olds: seq<Item>, news: seq<Item>, thr: real, differ: (string, string) -> bool)
    : (seq<Item>, seq<Item>)
  {
    var m := GreedyMatch(olds, news, Overlaps(thr));
    var rep := Reported(olds, news, m.partner, differ);
    (rep.0, rep.1 + Keep(news, m.used))
  }

  /** The page comparison loop: matching, then the new items left over. */
  method ComparePairs(olds: seq<Item>, news: seq<Item>, thr: real, differ: (string, string) -> bool)
    returns (removed: seq<Item>, added: seq<Item>)
    ensures (removed, added) == PairSpec(olds, news, thr, differ)
  {
    var ok := Overlaps(thr);
    var matched: set<int> := {};
    ghost var partner: seq<Option<nat>> := [];
    removed, added := [], [];
    var k := 0;
    while k < |olds|
      invariant 0 <= k <= |olds|
      invariant GreedyMatch(olds[..k], news, ok) == Match(partner, matched)
      invariant (removed, added) == Reported(olds[..k], news, partner, differ)
    {
      assert olds[..k + 1][..k] == olds[..k];
      var ob := olds[k];
      var found := FindFree(ob, news, matched, ok);
      if found.Some? {
        matched := matched + {found.value};
        var nb := news[found.value];
        if differ(ob.text, nb.text) {
          removed := removed + [ob];
          added := added + [nb];
        }
      } else {
        removed := removed + [ob];
      }
      assert (partner + [found])[..k] == partner;
      partner := partner + [found];
      k := k + 1;
    }
    assert olds[..k] == olds;
    added := added + Keep(news, matched);
  }

  /** Reported lists: lost items and both halves of a differing pair are there. */
  lemma {:induction false} ReportedCovers(olds: seq<Item>, news: seq<Item>, partner: seq<Option<nat>>,
                                          differ: (string, string) -> bool)
    requires |partner| == |olds|
    requires forall k :: 0 <= k < |olds| && partner[k].Some? ==> partner[k].value < |news|
    ensures var (r, a) := Reported(olds, news, partner, differ);
            forall k :: 0 <= k < |olds| ==>
              (partner[k].None? ==> olds[k] in r)
              && (partner[k].Some? && differ(olds[k].text, news[partner[k].value].text) ==>
                    olds[k] in r && news[partner[k].value] in a)
  {
    if olds != [] {
      var n := |olds| - 1;
      ReportedCovers(olds[..n], news, partner[..n], differ);
      var (r0, a0) := Reported(olds[..n], news, partner[..n], differ);
      var (r, a) := Reported(olds, news, partner, differ);
      assert r0 <= r && a0 <= a;
      forall k | 0 <= k < n
        ensures olds[..n][k] == olds[k] && partner[..n][k] == partner[k]
      {
      }
    }
  }

  /** Reported lists hold nothing but old and new items. */
  lemma {:induction false} ReportedWithin(olds: seq<Item>, news: seq<Item>, partner: seq<Option<nat>>,
                                          differ: (string, string) -> bool)
    requires |partner| == |olds|
    ensures var (r, a) := Reported(olds, news, partner, differ);
            (forall x :: x in r ==> x in olds) && (forall y :: y in a ==> y in news)
  {
    if olds != [] {
      var n := |olds| - 1;
      ReportedWithin(olds[..n], news, partner[..n], differ);
      assert forall x :: x in olds[..n] ==> x in olds;
    }
  }

  /** Nothing is reported when every old item is matched to a new one with an equal text. */
  lemma {:induction false} ReportedNone(olds: seq<Item>, news: seq<Item>, partner: seq<Option<nat>>,
                                        differ: (string, string) -> bool)
    requires |partner| == |olds|
    requires forall k :: 0 <= k < |olds| ==> partner[k] == Some(k) && k < |news| && !differ(olds[k].text, news[k].text)
    ensures Reported(olds, news, partner, differ) == ([], [])
  {
    if olds != [] {
      ReportedNone(olds[..|olds| - 1], news, partner[..|olds| - 1], differ);
    }
  }

  /**
   * The page comparison: every old item that finds no partner is removed,
   * every new item left untaken is added, and both items of a matched pair
   * with differing texts are reported; nothing else appears.
   */
  lemma PairLaws(olds: seq<Item>, news: seq<Item>, thr: real, differ: (string, string) -> bool)
    ensures var m := GreedyMatch(olds, news, Overlaps(thr));
            var (removed, added) := PairSpec(olds, news, thr, differ);
            (forall k :: 0 <= k < |olds| && m.partner[k].None? ==> olds[k] in removed)
            && (forall i :: 0 <= i < |news| && i !in m.used ==> news[i] in added)
            && (forall k :: 0 <= k < |olds| && m.partner[k].Some? ==>
                  m.partner[k].value < |news| && Iou(olds[k].box, news[m.partner[k].value].box) >= thr
                  && (differ(olds[k].text, news[m.partner[k].value].text) ==>
                        olds[k] in removed && news[m.partner[k].value] in added))
            && (forall x :: x in removed ==> x in olds)
            && (forall y :: y in added ==> y in news)
  {
    var m := GreedyMatch(olds, news, Overlaps(thr));
    GreedyBounds(olds, news, Overlaps(thr));
    ReportedCovers(olds, news, m.partner, differ);
    ReportedWithin(olds, news, m.partner, differ);
    KeepMembers(news, m.used);
  }

  /**
   * Comparing a page with itself reports nothing, when all boxes have
   * positive area, `thr <= 1` and no text differs from itself.
   */
  lemma PairIdentity(items: seq<Item>, thr: real, differ: (string, string) -> bool)
    requires thr <= 1.0
    requires forall k :: 0 <= k < |items| ==> items[k].box.x0 < items[k].box.x1 && items[k].box.y0 < items[k].box.y1
    requires forall t :: !differ(t, t)
    ensures PairSpec(items, items, thr, differ) == ([], [])
  {
    var ok := Overlaps(thr);
    forall k | 0 <= k < |items|
      ensures ok(items[k], items[k])
    {
      IouSelf(items[k].box);
    }
    DiagonalPrefix(items, items, ok);
    GreedyDiagonal(items, ok);
    var m := GreedyMatch(items, items, ok);
    forall k | 0 <= k < |items|
      ensures !differ(items[k].text, items[k].text)
    {
      var t := items[k].text;
      assert !differ(t, t);
    }
    ReportedNone(items, items, m.partner, differ);
    assert Reported(items, items, m.partner, differ).1 + Keep(items, m.used) == [];
  }

  /**
   * A page missing from one document counts as empty: every box of the
   * other page is reported, and nothing else.
   */
  lemma MissingPage(olds: seq<Item>, news: seq<Item>, thr: real, differ: (string, string) -> bool)
    ensures news == [] ==> PairSpec(olds, news, thr, differ) == (olds, [])
    ensures olds == [] ==> PairSpec(olds, news, thr, differ) == ([], news)
  {
    if news == [] {
      NothingToMatch(olds, Overlaps(thr));
      var m := GreedyMatch(olds, news, Overlaps(thr));
      AllLostReported(olds, m.partner, differ);
      assert Keep(news, m.used) == [];
      var none: seq<Item> := [];
      assert none + none == none;
    }
    if olds == [] {
      KeepNone(news);
      assert GreedyMatch(olds, news, Overlaps(thr)) == Match([], {});
      assert Reported(olds, news, [], differ) == ([], []);
      assert [] + news == news;
    }
  }

  lemma {:induction false} AllLostReported(olds: seq<Item>, partner: seq<Option<nat>>, differ: (string, string) -> bool)
    requires |partner| == |olds| && forall k :: 0 <= k < |olds| ==> partner[k].None?
    ensures Reported(olds, [], partner, differ) == (olds, [])
  {
    if olds != [] {
      var n := |olds| - 1;
      AllLostReported(olds[..n], partner[..n], differ);
      assert olds[..n] + [olds[n]] == olds;
    }
  }

  /** The match test of the box-only comparison. */
  function BoxOverlaps(thr: real): (RRect, RRect) -> bool {
    (o: RRect, n: RRect) => Iou(o, n) >= thr
  }

  /** The box-only comparison: the old boxes left without a partner and the new boxes left untaken. */
  function PlainSpec(olds: seq<RRect>, news: seq<RRect>, thr: real): (seq<RRect>, seq<RRect>) {
    var m := GreedyMatch(olds, news, BoxOverlaps(thr));
    (Lost(olds, m.partner), Keep(news, m.used))
  }

  /**
   * The box-only comparison of comparador.py `_compare_page` and
   * pdf_svg_compare.py `_compare_elements`, which are the same loop.
   */
  method ComparePlain(olds: seq<RRect>, news: seq<RRect>, thr: real) returns (removed: seq<RRect>, added: seq<RRect>)
    ensures (removed, added) == PlainSpec(olds, news, thr)
  {
    removed, added := CancelPairs(olds, news, BoxOverlaps(thr));
  }

  /**
   * The box-only comparison: both lists lose the same number of boxes, the
   * results are selections of their inputs, and no removed box overlaps an
   * added one by `thr` or more.
   */
  lemma PlainLaws(olds: seq<RRect>, news: seq<RRect>, thr: real)
    ensures var d := PlainSpec(olds, news, thr);
            |olds| - |d.0| == |news| - |d.1|
            && (forall x :: x in d.0 ==> x in olds) && (forall y :: y in d.1 ==> y in news)
            && SubseqOf(d.0, olds) && SubseqOf(d.1, news)
            && (forall x, y :: x in d.0 && y in d.1 ==> Iou(x, y) < thr)
  {
    CancelLaws(olds, news, BoxOverlaps(thr));
    var d := PlainSpec(olds, news, thr);
    forall x, y | x in d.0 && y in d.1
      ensures Iou(x, y) < thr
    {
      assert !BoxOverlaps(thr)(x, y);
    }
  }

  /** A missing page reports all boxes of the other one. */
  lemma PlainMissingPage(olds: seq<RRect>, news: seq<RRect>, thr: real)
    ensures PlainSpec(olds, [], thr) == (olds, [])
    ensures PlainSpec([], news, thr) == ([], news)
  {
    NothingToMatch(olds, BoxOverlaps(thr));
    var none: seq<RRect> := [];
    assert Keep(none, GreedyMatch(olds, none, BoxOverlaps(thr)).used) == [];
    KeepNone(news);
  }

  /** A page compared with itself reports nothing when its boxes have positive area and `thr <= 1`. */
  lemma PlainIdentity(boxes: seq<RRect>, thr: real)
    requires thr <= 1.0
    requires forall k :: 0 <= k < |boxes| ==> boxes[k].x0 < boxes[k].x1 && boxes[k].y0 < boxes[k].y1
    ensures PlainSpec(boxes, boxes, thr) == ([], [])
  {
    forall k | 0 <= k < |boxes|
      ensures BoxOverlaps(thr)(boxes[k], boxes[k])
    {
      IouSelf(boxes[k]);
    }
    GreedyDiagonal(boxes, BoxOverlaps(thr));
  }
}
