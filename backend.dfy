/**
 * The element comparison of backend.py: the elements of each new page are
 * first scaled to the old page's size, then matched to the old page's
 * elements by IoU; an old element with no partner is removed, a new one
 * left untaken is added, and a matched pair whose texts differ is reported
 * on both sides. A page only one document has reports all its elements.
 * The elements of each page are passed in as they are extracted at scale 1.
 */
module Backend {
  import opened Geometry
  import opened VectorMatch
  import PdfDiff

  /** A page: its size in points and its elements (text words, drawings and annotations) at scale 1. */
  datatype Page = Page(width: real, height: real, elements: seq<Item>)

  /**
   * `_iou` of backend.py, which divides by the union without checking it:
   * a positive overlap forces both boxes to have positive area, so the union
   * is positive and the value agrees with the guarded `_iou` of the other
   * engines.
   */
  function BackendIou(a: RRect, b: RRect): (r: real)
    ensures r == Iou(a, b)
  {
    var inter := InterAreaR(a, b);
    if inter == 0.0 then 0.0
    else
      InterBoundR(a, b);
      inter / (AreaR(a) + AreaR(b) - inter)
  }

  /** `old / new if new else 1.0`: the factor that maps a side of the new page onto the old one. */
  function ScaleFactor(oldSide: real, newSide: real): (s: real)
    ensures newSide != 0.0 ==> newSide * s == oldSide
    ensures newSide == 0.0 ==> s == 1.0
  {
    if newSide != 0.0 then oldSide / newSide else 1.0
  }

  /** `_extract_elements(page, sx, sy)`: every coordinate scaled, the texts kept. */
  function ScaleItems(items: seq<Item>, sx: real, sy: real): (r: seq<Item>)
    ensures |r| == |items|
    ensures forall k :: 0 <= k < |items| ==> r[k].text == items[k].text
  {
    seq(|items|, k requires 0 <= k < |items| =>
      var b := items[k].box;
      Item(RRect(b.x0 * sx, b.y0 * sy, b.x1 * sx, b.y1 * sy), items[k].text))
  }

  /** The raw text test of `_compare_pages`: `otext != ntext`. */
  const RawDiffer: (string, string) -> bool := (a: string, b: string) => a != b

  /** What `_compare_pages` returns for two pages. */
  function PageSpec(oldPage: Page, newPage: Page, thr: real): (seq<Item>, seq<Item>) {
    var sx := ScaleFactor(oldPage.width, newPage.width);
    var sy := ScaleFactor(oldPage.height, newPage.height);
    PairSpec(oldPage.elements, ScaleItems(newPage.elements, sx, sy), thr, RawDiffer)
  }

  /** `_compare_pages`. */
  method ComparePages(oldPage: Page, newPage: Page, thr: real) returns (removed: seq<Item>, added: seq<Item>)
    ensures (removed, added) == PageSpec(oldPage, newPage, thr)
  {
    var sx := if newPage.width != 0.0 then oldPage.width / newPage.width else 1.0;
    var sy := if newPage.height != 0.0 then oldPage.height / newPage.height else 1.0;
    var newBoxes := ScaleItems(newPage.elements, sx, sy);
    removed, added := ComparePairs(oldPage.elements, newBoxes, thr, RawDiffer);
  }

  function MaxLen(oldDoc: seq<Page>, newDoc: seq<Page>): nat {
    if |oldDoc| >= |newDoc| then |oldDoc| else |newDoc|
  }

  /** The result of page `p` of `compare_pdfs`. */
  function PageResult(oldDoc: seq<Page>, newDoc: seq<Page>, thr: real, p: nat): (seq<Item>, seq<Item>)
    requires p < MaxLen(oldDoc, newDoc)
  {
    if p >= |oldDoc| then ([], newDoc[p].elements)
    else if p >= |newDoc| then (oldDoc[p].elements, [])
    else PageSpec(oldDoc[p], newDoc[p], thr)
  }

  /** The per-page results for every page index below the larger page count. */
  function DocResults(oldDoc: seq<Page>, newDoc: seq<Page>, thr: real): (rs: seq<(seq<Item>, seq<Item>)>)
    ensures |rs| == MaxLen(oldDoc, newDoc)
    ensures forall p :: 0 <= p < |rs| ==> rs[p] == PageResult(oldDoc, newDoc, thr, p)
  {
    seq(MaxLen(oldDoc, newDoc), p requires 0 <= p < MaxLen(oldDoc, newDoc) => PageResult(oldDoc, newDoc, thr, p))
  }

  /** `compare_pdfs`: the removed and added records, page by page. */
  method ComparePdfs(oldDoc: seq<Page>, newDoc: seq<Page>, thr: real)
    returns (removidos: seq<PdfDiff.Record>, adicionados: seq<PdfDiff.Record>)
    ensures (removidos, adicionados) == PdfDiff.TagAll(DocResults(oldDoc, newDoc, thr))
  {
    var maxPages := MaxLen(oldDoc, newDoc);
    ghost var results := DocResults(oldDoc, newDoc, thr);
    removidos, adicionados := [], [];
    var i := 0;
    while i < maxPages
      invariant 0 <= i <= maxPages
      invariant (removidos, adicionados) == PdfDiff.TagAll(results[..i])
    {
      PdfDiff.TagAllNext(results, i);
      if i >= |oldDoc| {
        assert results[i] == ([], newDoc[i].elements);
        adicionados := adicionados + PdfDiff.Tag(i, newDoc[i].elements);
        assert removidos + PdfDiff.Tag(i, []) == removidos;
        i := i + 1;
        continue;
      }
      if i >= |newDoc| {
        assert results[i] == (oldDoc[i].elements, []);
        removidos := removidos + PdfDiff.Tag(i, oldDoc[i].elements);
        assert adicionados + PdfDiff.Tag(i, []) == adicionados;
        i := i + 1;
        continue;
      }
      assert results[i] == PageSpec(oldDoc[i], newDoc[i], thr);
      var rem, add := ComparePages(oldDoc[i], newDoc[i], thr);
      removidos := removidos + PdfDiff.Tag(i, rem);
      adicionados := adicionados + PdfDiff.Tag(i, add);
      i := i + 1;
    }
    assert results[..i] == results;
  }

  /** Scaling the new page's frame gives the old page's frame, side by side, when the new side is not zero. */
  lemma ScaleFrame(oldPage: Page, newPage: Page)
    requires newPage.width != 0.0 && newPage.height != 0.0
    ensures var sx := ScaleFactor(oldPage.width, newPage.width);
            var sy := ScaleFactor(oldPage.height, newPage.height);
            ScaleItems([Item(RRect(0.0, 0.0, newPage.width, newPage.height), "")], sx, sy)
              == [Item(RRect(0.0, 0.0, oldPage.width, oldPage.height), "")]
  {
    var sx := ScaleFactor(oldPage.width, newPage.width);
    var sy := ScaleFactor(oldPage.height, newPage.height);
    var r := ScaleItems([Item(RRect(0.0, 0.0, newPage.width, newPage.height), "")], sx, sy);
    assert r[0].box == RRect(0.0 * sx, 0.0 * sy, newPage.width * sx, newPage.height * sy);
    assert r[0] == Item(RRect(0.0, 0.0, oldPage.width, oldPage.height), "");
  }

  /** Pages of the same size are compared without scaling. */
  lemma SameSize(oldPage: Page, newPage: Page, thr: real)
    requires oldPage.width == newPage.width && oldPage.height == newPage.height
    ensures PageSpec(oldPage, newPage, thr) == PairSpec(oldPage.elements, newPage.elements, thr, RawDiffer)
  {
    var items := newPage.elements;
    var sx := ScaleFactor(oldPage.width, newPage.width);
    var sy := ScaleFactor(oldPage.height, newPage.height);
    assert sx == 1.0 && sy == 1.0;
    var r := ScaleItems(items, sx, sy);
    forall k | 0 <= k < |items|
      ensures r[k] == items[k]
    {
      assert r[k].box == RRect(items[k].box.x0 * 1.0, items[k].box.y0 * 1.0, items[k].box.x1 * 1.0, items[k].box.y1 * 1.0);
    }
    assert r == items;
  }

  /**
   * A page beyond the old document reports its elements unscaled as added
   * and nothing as removed; a page beyond the new document reports its
   * elements as removed and nothing as added.
   */
  lemma MissingPages(oldDoc: seq<Page>, newDoc: seq<Page>, thr: real)
    ensures var recs := PdfDiff.TagAll(DocResults(oldDoc, newDoc, thr));
            (forall r :: r in recs.1 && r.page >= |oldDoc| ==> r.page < |newDoc| && Item(r.box, r.text) in newDoc[r.page].elements)
            && (forall r :: r in recs.0 ==> r.page < |oldDoc|)
            && (forall r :: r in recs.0 && r.page >= |newDoc| ==> Item(r.box, r.text) in oldDoc[r.page].elements)
            && (forall r :: r in recs.1 ==> r.page < |newDoc|)
  {
    var results := DocResults(oldDoc, newDoc, thr);
    PdfDiff.TagAllPages(results);
  }

  /**
   * A document compared with itself reports nothing, when its elements have
   * positive area and `thr <= 1`.
   */
  lemma SelfCompare(doc: seq<Page>, thr: real)
    requires thr <= 1.0
    requires forall p, k :: 0 <= p < |doc| && 0 <= k < |doc[p].elements| ==>
               doc[p].elements[k].box.x0 < doc[p].elements[k].box.x1
               && doc[p].elements[k].box.y0 < doc[p].elements[k].box.y1
    ensures PdfDiff.TagAll(DocResults(doc, doc, thr)) == ([], [])
  {
    var results := DocResults(doc, doc, thr);
    forall p | 0 <= p < |results|
      ensures results[p] == ([], [])
    {
      SameSize(doc[p], doc[p], thr);
      assert forall t :: !RawDiffer(t, t);
      PairIdentity(doc[p].elements, thr, RawDiffer);
    }
    PdfDiff.TagAllQuiet(results);
  }
}
