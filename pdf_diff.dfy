/**
 * The vector comparison of pdf_diff.py: per page, old and new boxes (with
 * their text) are matched by IoU; the page results are tagged with the page
 * number, pairs that are unchanged or only moved are cancelled, and in
 * adaptive mode the whole pass is repeated with thresholds from 1.0 down to
 * `thr` until the reported sets stop changing. The boxes of each page are
 * passed in as values, already in the old document's coordinates.
 */
module PdfDiff {
  import opened Wrappers
  import opened Geometry
  import opened Text
  import opened Greedy
  import opened VectorMatch
  import opened Sorting

  /** The texts of a matched pair differ once stripped. */
  const StripDiffer: (string, string) -> bool := (a: string, b: string) => Strip(a) != Strip(b)

  /** One reported entry: `{"pagina", "bbox", "texto"}`. */
  datatype Record = Record(page: nat, box: RRect, text: string)

  /** What `comparar_pdfs` returns: `removidos`, `adicionados` and `verificados`. */
  datatype DiffResult = DiffResult(removed: seq<Record>, added: seq<Record>, checked: nat)

  // ---------------------------------------------------------------- transforms

  /** One value inside a transform: a number, or anything else. */
  datatype Value = Number(v: real) | NonNumber

  /** One entry of `transforms`: a list or tuple of values, or some other object. */
  datatype Transform = Sequence(values: seq<Value>) | NotSequence

  predicate WellShaped(t: Transform) { t.Sequence? && 4 <= |t.values| <= 6 }

  predicate AllNumbers(vs: seq<Value>) { forall i :: 0 <= i < |vs| ==> vs[i].Number? }

  /** The error the checks of `_extract_bboxes` raise at transforms `from` and later, if any. */
  function FirstBad(ts: seq<Transform>, from: nat): Option<Error>
    decreases |ts| - from
  {
    if from >= |ts| then None
    else if !WellShaped(ts[from]) then Some(ValueError("Transform " + NatToString(from) + " must be a sequence of four, five or six numeric values"))
    else if !AllNumbers(ts[from].values) then Some(TypeError("Transform " + NatToString(from) + " contains non-numeric value"))
    else FirstBad(ts, from + 1)
  }

  /** The validation loop at the head of `_extract_bboxes`. */
  method ValidateTransforms(ts: seq<Transform>) returns (err: Option<Error>)
    ensures err == FirstBad(ts, 0)
  {
    var idx := 0;
    while idx < |ts|
      invariant 0 <= idx <= |ts|
      invariant FirstBad(ts, 0) == FirstBad(ts, idx)
    {
      var t := ts[idx];
      if !t.Sequence? || !(|t.values| == 4 || |t.values| == 5 || |t.values| == 6) {
        return Some(ValueError("Transform " + NatToString(idx) + " must be a sequence of four, five or six numeric values"));
      }
      var i := 0;
      while i < |t.values|
        invariant 0 <= i <= |t.values|
        invariant forall j :: 0 <= j < i ==> t.values[j].Number?
      {
        if !t.values[i].Number? {
          return Some(TypeError("Transform " + NatToString(idx) + " contains non-numeric value"));
        }
        i := i + 1;
      }
      idx := idx + 1;
    }
    return None;
  }

  /**
   * The transforms pass exactly when each is a sequence of 4 to 6 numbers;
   * otherwise the first bad one raises ValueError for its shape or TypeError
   * for a non-number.
   */
  lemma {:induction false} TransformsLaws(ts: seq<Transform>, from: nat)
    ensures FirstBad(ts, from).None? <==>
              forall i :: from <= i < |ts| ==> WellShaped(ts[i]) && AllNumbers(ts[i].values)
    ensures FirstBad(ts, from).Some? ==> FirstBad(ts, from).value.ValueError? || FirstBad(ts, from).value.TypeError?
    decreases |ts| - from
  {
    if from < |ts| {
      TransformsLaws(ts, from + 1);
    }
  }

  /** The two cases of the tests: three values raise ValueError, a string among five raises TypeError. */
  lemma TransformExamples()
    ensures var e := FirstBad([Sequence([Number(1.0), Number(1.0), Number(0.0)])], 0); e.Some? && e.value.ValueError?
    ensures var e := FirstBad([Sequence([Number(1.0), Number(1.0), Number(0.0), Number(0.0), NonNumber])], 0);
            e.Some? && e.value.TypeError?
  {
    var t := Sequence([Number(1.0), Number(1.0), Number(0.0), Number(0.0), NonNumber]);
    assert !t.values[4].Number?;
    assert !AllNumbers(t.values);
  }

  // ---------------------------------------------------------------- one pass

  /** The boxes of page `p`, or none when the document has fewer pages. */
  function PageOf(pages: seq<seq<Item>>, p: nat): seq<Item> {
    if p < |pages| then pages[p] else []
  }

  function MaxPages(oldPages: seq<seq<Item>>, newPages: seq<seq<Item>>): nat {
    if |oldPages| >= |newPages| then |oldPages| else |newPages|
  }

  /** The records of page `p` for the items of a page result. */
  function Tag(p: nat, items: seq<Item>): (rs: seq<Record>)
    ensures |rs| == |items|
    ensures forall i :: 0 <= i < |items| ==> rs[i] == Record(p, items[i].box, items[i].text)
  {
    seq(|items|, i requires 0 <= i < |items| => Record(p, items[i].box, items[i].text))
  }

  /** The per-page results of one pass, for every page index below the larger page count. */
  function PageResults(oldPages: seq<seq<Item>>, newPages: seq<seq<Item>>, thr: real): (rs: seq<(seq<Item>, seq<Item>)>)
    ensures |rs| == MaxPages(oldPages, newPages)
    ensures forall p :: 0 <= p < |rs| ==> rs[p] == PairSpec(PageOf(oldPages, p), PageOf(newPages, p), thr, StripDiffer)
  {
    seq(MaxPages(oldPages, newPages), p requires 0 <= p =>
      PairSpec(PageOf(oldPages, p), PageOf(newPages, p), thr, StripDiffer))
  }

  /** The page results tagged with their page index and concatenated in page order. */
  function TagAll(results: seq<(seq<Item>, seq<Item>)>): (seq<Record>, seq<Record>) {
    if results == [] then ([], [])
    else
      var n := |results| - 1;
      var prev := TagAll(results[..n]);
      (prev.0 + Tag(n, results[n].0), prev.1 + Tag(n, results[n].1))
  }

  /** One more page adds its tagged records at the end. */
  lemma TagAllNext(results: seq<(seq<Item>, seq<Item>)>, i: nat)
    requires i < |results|
    ensures TagAll(results[..i + 1])
         == (TagAll(results[..i]).0 + Tag(i, results[i].0), TagAll(results[..i]).1 + Tag(i, results[i].1))
  {
    assert results[..i + 1][..i] == results[..i];
  }

  /** Pages that each report nothing give no records. */
  lemma {:induction false} TagAllQuiet(results: seq<(seq<Item>, seq<Item>)>)
    requires forall p :: 0 <= p < |results| ==> results[p] == ([], [])
    ensures TagAll(results) == ([], [])
  {
    if results != [] {
      var n := |results| - 1;
      TagAllQuiet(results[..n]);
      assert Tag(n, []) == [];
    }
  }

  /** Every record carries the page it came from and an item of that page's result. */
  lemma {:induction false} TagAllPages(results: seq<(seq<Item>, seq<Item>)>)
    ensures forall r :: r in TagAll(results).0 ==>
              r.page < |results| && Item(r.box, r.text) in results[r.page].0
    ensures forall r :: r in TagAll(results).1 ==>
              r.page < |results| && Item(r.box, r.text) in results[r.page].1
  {
    if results != [] {
      var n := |results| - 1;
      TagAllPages(results[..n]);
      assert forall p :: 0 <= p < n ==> results[..n][p] == results[p];
    }
  }

  /** The number of boxes on pages `0 .. n - 1` of both documents. */
  function CountUpTo(oldPages: seq<seq<Item>>, newPages: seq<seq<Item>>, n: nat): nat {
    if n == 0 then 0 else CountUpTo(oldPages, newPages, n - 1) + |PageOf(oldPages, n - 1)| + |PageOf(newPages, n - 1)|
  }

  function Total(pages: seq<seq<Item>>): nat {
    if pages == [] then 0 else Total(pages[..|pages| - 1]) + |pages[|pages| - 1]|
  }

  /** `verificados` counts every box of both documents once. */
  lemma CountAll(oldPages: seq<seq<Item>>, newPages: seq<seq<Item>>)
    ensures CountUpTo(oldPages, newPages, MaxPages(oldPages, newPages)) == Total(oldPages) + Total(newPages)
  {
    CountSplit(oldPages, newPages, MaxPages(oldPages, newPages));
    TotalBeyond(oldPages, MaxPages(oldPages, newPages));
    TotalBeyond(newPages, MaxPages(oldPages, newPages));
  }

  function TotalUpTo(pages: seq<seq<Item>>, n: nat): nat {
    if n == 0 then 0 else TotalUpTo(pages, n - 1) + |PageOf(pages, n - 1)|
  }

  lemma {:induction false} CountSplit(oldPages: seq<seq<Item>>, newPages: seq<seq<Item>>, n: nat)
    ensures CountUpTo(oldPages, newPages, n) == TotalUpTo(oldPages, n) + TotalUpTo(newPages, n)
  {
    if n > 0 {
      CountSplit(oldPages, newPages, n - 1);
    }
  }

  lemma {:induction false} TotalBeyond(pages: seq<seq<Item>>, n: nat)
    requires |pages| <= n
    ensures TotalUpTo(pages, n) == Total(pages)
  {
    if n > |pages| {
      TotalBeyond(pages, n - 1);
    } else if n > 0 {
      TotalPrefix(pages, n);
      assert pages[..n] == pages;
    }
  }

  lemma {:induction false} TotalPrefix(pages: seq<seq<Item>>, n: nat)
    requires n <= |pages|
    ensures TotalUpTo(pages, n) == Total(pages[..n])
  {
    if n > 0 {
      TotalPrefix(pages, n - 1);
      assert pages[..n][..n - 1] == pages[..n - 1];
    }
  }

  /** The raw records of one pass over every page index below the larger page count. */
  function PassRaw(oldPages: seq<seq<Item>>, newPages: seq<seq<Item>>, thr: real): (seq<Record>, seq<Record>) {
    TagAll(PageResults(oldPages, newPages, thr))
  }

  /** The page loop of one pass: the raw records and the number of boxes seen. */
  method ComparePass(oldPages: seq<seq<Item>>, newPages: seq<seq<Item>>, thr: real)
    returns (removed: seq<Record>, added: seq<Record>, counted: nat)
    ensures (removed, added) == PassRaw(oldPages, newPages, thr)
    ensures counted == Total(oldPages) + Total(newPages)
  {
    var maxPages := MaxPages(oldPages, newPages);
    ghost var results := PageResults(oldPages, newPages, thr);
    removed, added, counted := [], [], 0;
    var p := 0;
    while p < maxPages
      invariant 0 <= p <= maxPages
      invariant (removed, added) == TagAll(results[..p])
      invariant counted == CountUpTo(oldPages, newPages, p)
    {
      assert results[..p + 1][..p] == results[..p];
      var olds := PageOf(oldPages, p);
      var news := PageOf(newPages, p);
      counted := counted + |olds| + |news|;
      var rem, add := ComparePairs(olds, news, thr, StripDiffer);
      removed := removed + Tag(p, rem);
      added := added + Tag(p, add);
      p := p + 1;
    }
    assert results[..p] == results;
    CountAll(oldPages, newPages);
  }

  // ---------------------------------------------------------------- filters

  /** `round` on a real: to the nearest integer, halves to the even one. */
  function RoundHalfEven(x: real): (r: int)
    ensures -0.5 <= r as real - x <= 0.5
    ensures x - x.Floor as real == 0.5 ==> r % 2 == 0
  {
    var f := x.Floor;
    var d := x - f as real;
    if d < 0.5 then f else if d > 0.5 then f + 1 else if f % 2 == 0 then f else f + 1
  }

  lemma RoundInt(n: int)
    ensures RoundHalfEven(n as real) == n
  {
  }

  /** `_key`: the page and the box corners in hundredths, rounded. */
  function Key(r: Record): (nat, int, int, int, int) {
    (r.page, RoundHalfEven(r.box.x0 / 0.01), RoundHalfEven(r.box.y0 / 0.01),
     RoundHalfEven(r.box.x1 / 0.01), RoundHalfEven(r.box.y1 / 0.01))
  }

  /** The test of `_remove_unchanged`: equal keys, or same page and text with IoU at least 0.995. */
  predicate Unchanged(r: Record, a: Record) {
    Key(r) == Key(a) || (r.page == a.page && Strip(r.text) == Strip(a.text) && Iou(r.box, a.box) >= 0.995)
  }

  const UnchangedOk: (Record, Record) -> bool := (r: Record, a: Record) => Unchanged(r, a)

  /** `_remove_unchanged`: the removed and added records that did not cancel. */
  function UnchangedSpec(rem: seq<Record>, add: seq<Record>): (seq<Record>, seq<Record>) {
    var m := GreedyMatch(rem, add, UnchangedOk);
    (Lost(rem, m.partner), Keep(add, m.used))
  }

  method RemoveUnchanged(rem: seq<Record>, add: seq<Record>) returns (remOut: seq<Record>, addOut: seq<Record>)
    ensures (remOut, addOut) == UnchangedSpec(rem, add)
  {
    remOut, addOut := CancelPairs(rem, add, UnchangedOk);
  }

  /** `_center`. */
  function Center(b: RRect): (real, real) { ((b.x0 + b.x1) / 2.0, (b.y0 + b.y1) / 2.0) }

  /** A width or height changed by at most 0.5, or by at most a tenth of the larger one. */
  predicate SizeOk(u: real, v: real) {
    AbsR(u - v) <= 0.5 || AbsR(u - v) <= 0.1 * MaxR(u, v)
  }

  /** The test of `_remove_moved_same_text` with the default size tolerances. */
  predicate Moved(r: Record, a: Record, dist: real) {
    r.page == a.page && Strip(r.text) == Strip(a.text)
    && AbsR(Center(r.box).0 - Center(a.box).0) <= dist && AbsR(Center(r.box).1 - Center(a.box).1) <= dist
    && SizeOk(r.box.Width(), a.box.Width()) && SizeOk(r.box.Height(), a.box.Height())
  }

  function MovedOk(dist: real): (Record, Record) -> bool {
    (r: Record, a: Record) => Moved(r, a, dist)
  }

  /** `_remove_moved_same_text`: the records that did not cancel as a small move. */
  function MovedSpec(rem: seq<Record>, add: seq<Record>, dist: real): (seq<Record>, seq<Record>) {
    var m := GreedyMatch(rem, add, MovedOk(dist));
    (Lost(rem, m.partner), Keep(add, m.used))
  }

  method RemoveMovedSameText(rem: seq<Record>, add: seq<Record>, dist: real)
    returns (remOut: seq<Record>, addOut: seq<Record>)
    ensures (remOut, addOut) == MovedSpec(rem, add, dist)
  {
    remOut, addOut := CancelPairs(rem, add, MovedOk(dist));
  }

  /**
   * `_remove_unchanged` cancels pairs one to one: both sides shrink by the
   * same count, what is left comes from the inputs, and no record left on
   * one side is unchanged with respect to one left on the other.
   */
  lemma UnchangedLaws(rem: seq<Record>, add: seq<Record>)
    ensures var (r, a) := UnchangedSpec(rem, add);
            |rem| - |r| == |add| - |a|
            && (forall x :: x in r ==> x in rem) && (forall y :: y in a ==> y in add)
            && SubseqOf(r, rem) && SubseqOf(a, add)
            && (forall x, y :: x in r && y in a ==> !Unchanged(x, y))
  {
    var m := GreedyMatch(rem, add, UnchangedOk);
    var r, a := Lost(rem, m.partner), Keep(add, m.used);
    assert UnchangedSpec(rem, add) == (r, a);
    CancelLaws(rem, add, UnchangedOk);
    forall x, y | x in r && y in a
      ensures !Unchanged(x, y)
    {
      assert !UnchangedOk(x, y);
    }
  }

  /** The same list on both sides cancels completely. */
  lemma UnchangedSelf(rs: seq<Record>)
    ensures UnchangedSpec(rs, rs) == ([], [])
  {
    GreedyDiagonal(rs, UnchangedOk);
  }

  /** The tests: an identical box cancels, a box moved by a whole unit stays. */
  lemma UnchangedExamples()
    ensures UnchangedSpec([Record(0, RRect(0.0, 0.0, 1.0, 1.0), "")], [Record(0, RRect(0.0, 0.0, 1.0, 1.0), "")]) == ([], [])
    ensures var r, a := Record(0, RRect(0.0, 0.0, 1.0, 1.0), ""), Record(0, RRect(1.0, 1.0, 2.0, 2.0), "");
            UnchangedSpec([r], [a]) == ([r], [a])
  {
    UnchangedSelf([Record(0, RRect(0.0, 0.0, 1.0, 1.0), "")]);
    var r, a := Record(0, RRect(0.0, 0.0, 1.0, 1.0), ""), Record(0, RRect(1.0, 1.0, 2.0, 2.0), "");
    assert Key(r).1 == 0 && Key(a).1 == 100;
    assert InterWR(r.box, a.box) == 0.0;
    SingletonMatch(r, a, UnchangedOk);
  }

  /** The small-move test is symmetric. */
  lemma MovedSym(r: Record, a: Record, dist: real)
    ensures Moved(r, a, dist) == Moved(a, r, dist)
  {
  }

  /** A record shifted by at most `dist` on each axis, with the same page and text, is a small move. */
  lemma MovedShift(r: Record, dx: real, dy: real, dist: real)
    requires AbsR(dx) <= dist && AbsR(dy) <= dist
    ensures Moved(r, Record(r.page, RRect(r.box.x0 + dx, r.box.y0 + dy, r.box.x1 + dx, r.box.y1 + dy), r.text), dist)
  {
  }

  /** Different stripped texts never cancel. */
  lemma MovedNeedsText(r: Record, a: Record, dist: real)
    requires Strip(r.text) != Strip(a.text)
    ensures MovedSpec([r], [a], dist) == ([r], [a])
  {
    SingletonMatch(r, a, MovedOk(dist));
  }

  /** One record and one small move of it cancel. */
  lemma MovedPairCancels(r: Record, a: Record, dist: real)
    requires Moved(r, a, dist)
    ensures MovedSpec([r], [a], dist) == ([], [])
  {
    SingletonMatch(r, a, MovedOk(dist));
  }

  /**
   * `_remove_moved_same_text` cancels pairs one to one, keeps records of
   * its inputs, and leaves no small move between what stays on each side.
   */
  lemma MovedLaws(rem: seq<Record>, add: seq<Record>, dist: real)
    ensures var (r, a) := MovedSpec(rem, add, dist);
            |rem| - |r| == |add| - |a|
            && (forall x :: x in r ==> x in rem) && (forall y :: y in a ==> y in add)
            && SubseqOf(r, rem) && SubseqOf(a, add)
            && (forall x, y :: x in r && y in a ==> !Moved(x, y, dist))
  {
    var m := GreedyMatch(rem, add, MovedOk(dist));
    var r, a := Lost(rem, m.partner), Keep(add, m.used);
    assert MovedSpec(rem, add, dist) == (r, a);
    CancelLaws(rem, add, MovedOk(dist));
    forall x, y | x in r && y in a
      ensures !Moved(x, y, dist)
    {
      assert !MovedOk(dist)(x, y);
    }
  }

  /** The test of a word (here any text) moved by one point within `dist = 2`. */
  lemma MovedWord(text: string)
    ensures MovedSpec([Record(0, RRect(0.0, 0.0, 10.0, 10.0), text)], [Record(0, RRect(1.0, 0.0, 11.0, 10.0), text)], 2.0) == ([], [])
  {
    var r := Record(0, RRect(0.0, 0.0, 10.0, 10.0), text);
    var a := Record(r.page, RRect(r.box.x0 + 1.0, r.box.y0 + 0.0, r.box.x1 + 1.0, r.box.y1 + 0.0), r.text);
    MovedShift(r, 1.0, 0.0, 2.0);
    MovedPairCancels(r, a, 2.0);
    assert a == Record(0, RRect(1.0, 0.0, 11.0, 10.0), text);
  }

  /** The test of a shape moved by a third of a point within `dist = 1`. */
  lemma MovedShape()
    ensures MovedSpec([Record(0, RRect(50.0, 50.0, 52.0, 52.0), "")], [Record(0, RRect(50.3, 50.2, 52.3, 52.2), "")], 1.0) == ([], [])
  {
    var r := Record(0, RRect(50.0, 50.0, 52.0, 52.0), "");
    var a := Record(r.page, RRect(r.box.x0 + 0.3, r.box.y0 + 0.2, r.box.x1 + 0.3, r.box.y1 + 0.2), r.text);
    MovedShift(r, 0.3, 0.2, 1.0);
    MovedPairCancels(r, a, 1.0);
    assert a == Record(0, RRect(50.3, 50.2, 52.3, 52.2), "");
  }

  /** A pass: the raw page records, then the two filters. */
  function PassResult(oldPages: seq<seq<Item>>, newPages: seq<seq<Item>>, thr: real, dist: real): (seq<Record>, seq<Record>) {
    var raw := PassRaw(oldPages, newPages, thr);
    var kept := UnchangedSpec(raw.0, raw.1);
    MovedSpec(kept.0, kept.1, dist)
  }

  // ---------------------------------------------------------------- thresholds

  /** The `k`-th value of the adaptive grid 1.0, 0.95, 0.90, ... */
  function Grid(k: int): real { 1.0 - 0.05 * k as real }

  /** How many grid values are at least `thr`. */
  function Steps(thr: real): (n: nat)
    ensures forall k: nat :: k < n <==> Grid(k) >= thr
  {
    if thr > 1.0 then 0 else (20.0 * (1.0 - thr)).Floor + 1
  }

  /**
   * The threshold list: `[thr]`, or in adaptive mode 1.0, 0.95, ... down to
   * the last value not below `thr`, with `thr` appended when it is not the
   * last; an empty list fails on `thr_values[-1]`.
   */
  function Schedule(thr: real, adaptive: bool): Result<seq<real>> {
    if !adaptive then Ok([thr])
    else
      var g := seq(Steps(thr), k => Grid(k));
      if g == [] then Err(IndexError)
      else if g[|g| - 1] != thr then Ok(g + [thr])
      else Ok(g)
  }

  /** The `while val >= thr` loop, with `round(val, 2)` exact on these values. */
  method ThresholdValues(thr: real, adaptive: bool) returns (r: Result<seq<real>>)
    ensures r == Schedule(thr, adaptive)
  {
    if !adaptive {
      return Ok([thr]);
    }
    var values: seq<real> := [];
    var val := 1.0;
    var k: nat := 0;
    while val >= thr
      invariant val == Grid(k) && k <= Steps(thr)
      invariant values == seq(k, j => Grid(j))
      decreases Steps(thr) - k
    {
      values := values + [val];
      val := val - 0.05;
      k := k + 1;
    }
    assert k == Steps(thr);
    if values == [] {
      return Err(IndexError);
    }
    if values[|values| - 1] != thr {
      values := values + [thr];
    }
    return Ok(values);
  }

  /**
   * The schedule fails exactly when adaptive mode meets `thr > 1`; otherwise
   * it starts at 1.0 (adaptive) or is `[thr]`, decreases strictly, steps by
   * 0.05 except for a last, smaller step, stays at or above `thr` and ends
   * at `thr`.
   */
  lemma ScheduleLaws(thr: real, adaptive: bool)
    ensures Schedule(thr, adaptive).Err? <==> adaptive && thr > 1.0
    ensures Schedule(thr, adaptive).Ok? ==>
              var s := Schedule(thr, adaptive).value;
              s != [] && s[|s| - 1] == thr
              && (adaptive ==> s[0] == 1.0)
              && (!adaptive ==> s == [thr])
              && (forall i :: 0 <= i < |s| ==> s[i] >= thr)
              && (forall i :: 0 < i < |s| ==> 0.0 < s[i - 1] - s[i] <= 0.05)
              && (forall i :: 0 < i < |s| - 1 ==> s[i - 1] - s[i] == 0.05)
  {
    if adaptive && thr <= 1.0 {
      var n := Steps(thr);
      assert n >= 1;
      assert Grid(n) < thr;
    }
  }

  // ---------------------------------------------------------------- adaptive loop

  /** The key-set pair compared between passes: `(pagina, bbox)` of each list. */
  function KeySet(rs: seq<Record>): set<(nat, RRect)> {
    set i | 0 <= i < |rs| :: (rs[i].page, rs[i].box)
  }

  type Keys = (set<(nat, RRect)>, set<(nat, RRect)>)

  /** The pass function of a comparison: the filtered records at a threshold. */
  function Passes(oldPages: seq<seq<Item>>, newPages: seq<seq<Item>>, dist: real): real -> (seq<Record>, seq<Record>) {
    t => PassResult(oldPages, newPages, t, dist)
  }

  /**
   * The passes at thresholds `thrs`, after a previous key pair `previous`
   * and a current result `last`: each pass replaces the result; the loop
   * stops when the keys repeat or both lists are empty.
   */
  function Iterate(pass: real -> (seq<Record>, seq<Record>), thrs: seq<real>,
                   previous: Option<Keys>, last: (seq<Record>, seq<Record>)): (seq<Record>, seq<Record>)
    decreases |thrs|
  {
    if thrs == [] then last
    else
      var cur := pass(thrs[0]);
      var keys := (KeySet(cur.0), KeySet(cur.1));
      if previous == Some(keys) then cur
      else if cur.0 == [] && cur.1 == [] then cur
      else Iterate(pass, thrs[1..], Some(keys), cur)
  }

  /** `comparar_pdfs` on the extracted pages, with `pos_tol` as `dist`. */
  method ComparePdfs(oldPages: seq<seq<Item>>, newPages: seq<seq<Item>>, thr: real, adaptive: bool, posTol: real)
    returns (r: Result<DiffResult>)
    ensures Schedule(thr, adaptive).Err? ==> r == Err(Schedule(thr, adaptive).error)
    ensures Schedule(thr, adaptive).Ok? ==>
              r.Ok? && r.value.checked == Total(oldPages) + Total(newPages)
              && (r.value.removed, r.value.added) == Iterate(Passes(oldPages, newPages, posTol), Schedule(thr, adaptive).value, None, ([], []))
  {
    var sched := ThresholdValues(thr, adaptive);
    if sched.Err? {
      return Err(sched.error);
    }
    var thrs := sched.value;
    ScheduleLaws(thr, adaptive);
    ghost var pass := Passes(oldPages, newPages, posTol);
    ghost var goal := Iterate(pass, thrs, None, ([], []));
    var removed: seq<Record>, added: seq<Record> := [], [];
    var checked: nat := 0;
    var counted := false;
    var previous: Option<Keys> := None;
    var j := 0;
    while j < |thrs|
      invariant 0 <= j <= |thrs|
      invariant Iterate(pass, thrs[j..], previous, (removed, added)) == goal
      invariant counted <==> j > 0
      invariant checked == if counted then Total(oldPages) + Total(newPages) else 0
    {
      assert thrs[j..][0] == thrs[j] && thrs[j..][1..] == thrs[j + 1..];
      var rem, add, n := ComparePass(oldPages, newPages, thrs[j]);
      if !counted {
        checked := checked + n;
      }
      rem, add := RemoveUnchanged(rem, add);
      rem, add := RemoveMovedSameText(rem, add, posTol);
      assert (rem, add) == pass(thrs[j]);
      removed, added := rem, add;
      counted := true;
      var current := (KeySet(removed), KeySet(added));
      if previous == Some(current) {
        break;
      }
      previous := Some(current);
      if removed == [] && added == [] {
        break;
      }
      j := j + 1;
    }
    return Ok(DiffResult(removed, added, checked));
  }

  /** The result is the result of one of the passes, never the empty start, when there are thresholds. */
  lemma {:induction false} IterateIsAPass(pass: real -> (seq<Record>, seq<Record>), thrs: seq<real>,
                                        previous: Option<Keys>, last: (seq<Record>, seq<Record>))
    requires thrs != []
    ensures exists j :: 0 <= j < |thrs| && Iterate(pass, thrs, previous, last) == pass(thrs[j])
    decreases |thrs|
  {
    var cur := pass(thrs[0]);
    var keys := (KeySet(cur.0), KeySet(cur.1));
    if previous == Some(keys) || (cur.0 == [] && cur.1 == []) {
      assert Iterate(pass, thrs, previous, last) == pass(thrs[0]);
    } else if |thrs| == 1 {
      assert Iterate(pass, thrs, previous, last) == Iterate(pass, [], Some(keys), cur);
    } else {
      IterateIsAPass(pass, thrs[1..], Some(keys), cur);
      var j :| 0 <= j < |thrs[1..]| && Iterate(pass, thrs[1..], Some(keys), cur) == pass(thrs[1..][j]);
      assert thrs[1..][j] == thrs[j + 1];
    }
  }

  /** A pass that reports nothing ends the loop with nothing reported. */
  lemma IterateStopsOnEmpty(pass: real -> (seq<Record>, seq<Record>), thrs: seq<real>,
                            previous: Option<Keys>, last: (seq<Record>, seq<Record>))
    requires thrs != [] && pass(thrs[0]) == ([], [])
    ensures Iterate(pass, thrs, previous, last) == ([], [])
  {
  }

  /** Without adaptive mode the result is the single pass at `thr`. */
  lemma NonAdaptive(oldPages: seq<seq<Item>>, newPages: seq<seq<Item>>, thr: real, dist: real)
    ensures Schedule(thr, false) == Ok([thr])
    ensures Iterate(Passes(oldPages, newPages, dist), [thr], None, ([], [])) == PassResult(oldPages, newPages, thr, dist)
  {
    assert [thr][1..] == [];
  }

  /**
   * A document compared with itself reports nothing, when all its boxes
   * have positive area and the first threshold is at most 1.
   */
  lemma SelfCompare(pages: seq<seq<Item>>, thrs: seq<real>, dist: real)
    requires thrs != [] && thrs[0] <= 1.0
    requires forall p, k :: 0 <= p < |pages| && 0 <= k < |pages[p]| ==>
               pages[p][k].box.x0 < pages[p][k].box.x1 && pages[p][k].box.y0 < pages[p][k].box.y1
    ensures Iterate(Passes(pages, pages, dist), thrs, None, ([], [])) == ([], [])
  {
    forall p: nat | p < MaxPages(pages, pages)
      ensures PairSpec(PageOf(pages, p), PageOf(pages, p), thrs[0], StripDiffer) == ([], [])
    {
      SelfPage(pages, thrs[0], p);
    }
    TagAllQuiet(PageResults(pages, pages, thrs[0]));
    assert UnchangedSpec([], []) == ([], []);
    assert MovedSpec([], [], dist) == ([], []);
    assert PassResult(pages, pages, thrs[0], dist) == ([], []);
    IterateStopsOnEmpty(Passes(pages, pages, dist), thrs, None, ([], []));
  }

  lemma SelfPage(pages: seq<seq<Item>>, thr: real, p: nat)
    requires thr <= 1.0
    requires forall p, k :: 0 <= p < |pages| && 0 <= k < |pages[p]| ==>
               pages[p][k].box.x0 < pages[p][k].box.x1 && pages[p][k].box.y0 < pages[p][k].box.y1
    ensures PairSpec(PageOf(pages, p), PageOf(pages, p), thr, StripDiffer) == ([], [])
  {
    var items := PageOf(pages, p);
    assert forall k :: 0 <= k < |items| ==> items[k].box.x0 < items[k].box.x1 && items[k].box.y0 < items[k].box.y1;
    PairIdentity(items, thr, StripDiffer);
  }
}
