/**
 * The text-aware post-filters of the main engine (compare_engine.py):
 * `drop_overlapping_removals`, `suppress_identical_text_pairs` and
 * `filter_identical_text_regions`. Boxes are in page pixels; words are the
 * `(text, bbox, baseline)` triples taken from the PDF text layer.
 */
module EngineText {
  import opened Wrappers
  import opened Geometry
  import opened Text
  import opened Sorting
  import opened EngineRects
  import opened Greedy

  /** A `WordBox`. */
  datatype WordBox = WordBox(text: string, box: RRect, baseline: int)

  /** `WORD_IOU_MIN`, `SIZE_TOLERANCE` and `MAX_CENTER_SHIFT_PX`. */
  const WordIouMin: real := 0.52
  const SizeTolerance: real := 0.28
  const MaxCenterShiftPx: real := 5.0

  /** The default `iou_threshold` of `drop_overlapping_removals`. */
  const DefaultDropIou: real := 0.65

  // ---------------------------------------------------------------- drop_overlapping_removals

  /** Some new box overlaps `box` at IoU `threshold` or more. */
  predicate OverlapsAny(box: RRect, newBoxes: seq<RRect>, threshold: real) {
    exists n :: n in newBoxes && ComputeIou(box, n) >= threshold
  }

  /** The old boxes, in order, that no new box overlaps at the threshold. */
  function Unopposed(oldBoxes: seq<RRect>, newBoxes: seq<RRect>, threshold: real): seq<RRect> {
    if oldBoxes == [] then []
    else
      var o := oldBoxes[|oldBoxes| - 1];
      Unopposed(oldBoxes[..|oldBoxes| - 1], newBoxes, threshold)
        + (if OverlapsAny(o, newBoxes, threshold) then [] else [o])
  }

  /**
   * `drop_overlapping_removals`: the removal boxes that no addition box
   * overlaps at the threshold, and how many were dropped; both lists are
   * returned unchanged when either is empty.
   */
  method DropOverlappingRemovals(oldBoxes: seq<RRect>, newBoxes: seq<RRect>, iouThreshold: real)
    returns (pruned: seq<RRect>, suppressed: nat)
    ensures oldBoxes == [] || newBoxes == [] ==> pruned == oldBoxes && suppressed == 0
    ensures oldBoxes != [] && newBoxes != [] ==> pruned == Unopposed(oldBoxes, newBoxes, iouThreshold)
    ensures |pruned| + suppressed == |oldBoxes|
  {
    if oldBoxes == [] || newBoxes == [] {
      return oldBoxes, 0;
    }
    pruned, suppressed := [], 0;
    var i := 0;
    while i < |oldBoxes|
      invariant 0 <= i <= |oldBoxes| && pruned == Unopposed(oldBoxes[..i], newBoxes, iouThreshold)
      invariant |pruned| + suppressed == i
    {
      assert oldBoxes[..i + 1][..i] == oldBoxes[..i];
      var oldRect := oldBoxes[i];
      var any := false;
      var j := 0;
      while j < |newBoxes| && !any
        invariant 0 <= j <= |newBoxes|
        invariant any <==> exists k :: 0 <= k < j && ComputeIou(oldRect, newBoxes[k]) >= iouThreshold
      {
        any := ComputeIou(oldRect, newBoxes[j]) >= iouThreshold;
        j := j + 1;
      }
      assert any <==> OverlapsAny(oldRect, newBoxes, iouThreshold);
      if any {
        suppressed := suppressed + 1;
        i := i + 1;
        continue;
      }
      pruned := pruned + [oldRect];
      i := i + 1;
    }
    assert oldBoxes[..i] == oldBoxes;
  }

  /** A box survives exactly when no new box overlaps it at the threshold. */
  lemma {:induction false} UnopposedMembers(oldBoxes: seq<RRect>, newBoxes: seq<RRect>, threshold: real)
    ensures forall x :: x in Unopposed(oldBoxes, newBoxes, threshold) <==> x in oldBoxes && !OverlapsAny(x, newBoxes, threshold)
  {
    if oldBoxes != [] {
      var p := oldBoxes[..|oldBoxes| - 1];
      UnopposedMembers(p, newBoxes, threshold);
      assert oldBoxes == p + [oldBoxes[|oldBoxes| - 1]];
    }
  }

  // ---------------------------------------------------------------- shared text collection

  /** The texts of the words overlapping `rect` at `WORD_IOU_MIN` or more, in word order. */
  function Hits(words: seq<WordBox>, rect: RRect): (r: seq<string>)
    ensures |r| <= |words|
  {
    if words == [] then []
    else
      var w := words[|words| - 1];
      Hits(words[..|words| - 1], rect) + (if ComputeIou(w.box, rect) >= WordIouMin then [w.text] else [])
  }

  /** `_collect_text`: the sorted, joined and normalised texts of the hits, or "" without hits. */
  function CollectText(words: seq<WordBox>, rect: RRect): string {
    var collected := Hits(words, rect);
    if collected == [] then "" else NormalizeText(Join(SortBy(collected, StrLe), " "))
  }

  /** Collected text is lower-cased with whitespace collapsed. */
  lemma CollectTextShape(words: seq<WordBox>, rect: RRect)
    ensures NoUpper(CollectText(words, rect)) && Collapsed(CollectText(words, rect))
  {
    if Hits(words, rect) != [] {
      NormalizeTextShape(Join(SortBy(Hits(words, rect), StrLe), " "));
    }
  }

  /** No word overlaps the box, so nothing is collected. */
  lemma CollectTextNoHits(words: seq<WordBox>, rect: RRect)
    requires forall k :: 0 <= k < |words| ==> ComputeIou(words[k].box, rect) < WordIouMin
    ensures CollectText(words, rect) == ""
  {
    HitsNone(words, rect);
  }

  lemma {:induction false} HitsNone(words: seq<WordBox>, rect: RRect)
    requires forall k :: 0 <= k < |words| ==> ComputeIou(words[k].box, rect) < WordIouMin
    ensures Hits(words, rect) == []
  {
    if words != [] {
      HitsNone(words[..|words| - 1], rect);
    }
  }

  // ---------------------------------------------------------------- suppress_identical_text_pairs

  /** `abs(a - b) / max(a, b) > SIZE_TOLERANCE`, for positive sizes. */
  predicate SizeDiffers(a: real, b: real)
    requires a > 0.0 && b > 0.0
  {
    var d := if a >= b then a - b else b - a;
    d / MaxR(a, b) > SizeTolerance
  }

  /**
   * The geometric half of an identical-text pair: both boxes have positive
   * sides, widths and heights agree within `SIZE_TOLERANCE`, and the
   * centres are at most `MAX_CENTER_SHIFT_PX` apart.
   */
  predicate PairGeometry(rbox: RRect, abox: RRect) {
    var rw, rh := rbox.x1 - rbox.x0, rbox.y1 - rbox.y0;
    var aw, ah := abox.x1 - abox.x0, abox.y1 - abox.y0;
    var dx := 0.5 * (rbox.x0 + rbox.x1) - 0.5 * (abox.x0 + abox.x1);
    var dy := 0.5 * (rbox.y0 + rbox.y1) - 0.5 * (abox.y0 + abox.y1);
    rw > 0.0 && rh > 0.0 && aw > 0.0 && ah > 0.0
    && !SizeDiffers(rw, aw) && !SizeDiffers(rh, ah)
    && dx * dx + dy * dy <= MaxCenterShiftPx * MaxCenterShiftPx
  }

  /** A removed box with collected text `oldText` pairs with an added box with collected text `newText`. */
  predicate IdenticalPair(rbox: RRect, abox: RRect, oldText: string, newText: string) {
    PairGeometry(rbox, abox) && oldText != "" && newText != "" && oldText == newText
  }

  /** The collected text of each box. */
  function TextsOf(words: seq<WordBox>, boxes: seq<RRect>): (r: seq<string>)
    ensures |r| == |boxes| && forall i :: 0 <= i < |boxes| ==> r[i] == CollectText(words, boxes[i])
  {
    seq(|boxes|, i requires 0 <= i < |boxes| => CollectText(words, boxes[i]))
  }

  /**
   * The first added index at or after `from`, not yet matched, that pairs
   * with `rbox`; `newTexts` holds the added boxes' collected texts.
   */
  function FirstPartner(rbox: RRect, oldText: string, added: seq<RRect>, newTexts: seq<string>, matched: set<int>, from: nat)
    : (r: Option<nat>)
    requires |newTexts| == |added|
    ensures r.Some? ==> from <= r.value < |added| && r.value !in matched
                        && IdenticalPair(rbox, added[r.value], oldText, newTexts[r.value])
    ensures forall j :: from <= j < (if r.Some? then r.value else |added|) ==>
              j in matched || !IdenticalPair(rbox, added[j], oldText, newTexts[j])
    decreases |added| - from
  {
    if from >= |added| then None
    else if from !in matched && IdenticalPair(rbox, added[from], oldText, newTexts[from]) then Some(from)
    else FirstPartner(rbox, oldText, added, newTexts, matched, from + 1)
  }

  /** The matched index sets and the (removed, added) pairs, in the order they were made. */
  datatype Matching = Matching(removed: set<int>, added: set<int>, pairs: seq<(nat, nat)>)

  /** The greedy matching after the first `n` removed boxes, given every box's collected text. */
  function MatchSpec(removed: seq<RRect>, added: seq<RRect>, oldTexts: seq<string>, newTexts: seq<string>, n: nat): Matching
    requires n <= |removed| == |oldTexts| && |added| == |newTexts|
  {
    if n == 0 then Matching({}, {}, [])
    else
      var m := MatchSpec(removed, added, oldTexts, newTexts, n - 1);
      if n - 1 in m.removed then m
      else
        match FirstPartner(removed[n - 1], oldTexts[n - 1], added, newTexts, m.added, 0)
        case None => m
        case Some(a) => Matching(m.removed + {n - 1}, m.added + {a}, m.pairs + [(n - 1, a)])
  }

  /** The matching `suppress_identical_text_pairs` makes. */
  function SuppressMatching(removed: seq<RRect>, added: seq<RRect>, wordsOld: seq<WordBox>, wordsNew: seq<WordBox>): Matching {
    MatchSpec(removed, added, TextsOf(wordsOld, removed), TextsOf(wordsNew, added), |removed|)
  }

  /** The result of `suppress_identical_text_pairs`. */
  function SuppressSpec(removed: seq<RRect>, added: seq<RRect>, wordsOld: seq<WordBox>, wordsNew: seq<WordBox>)
    : (seq<RRect>, seq<RRect>, nat)
  {
    if removed == [] || added == [] then (removed, added, 0)
    else
      var m := SuppressMatching(removed, added, wordsOld, wordsNew);
      (Keep(removed, m.removed), Keep(added, m.added), |m.pairs|)
  }

  /**
   * The inner loop of `suppress_identical_text_pairs`: the first added box,
   * in order, not yet matched, that pairs with `rbox`, whose collected text
   * is `oldText`.
   */
  method FindPartner(rbox: RRect, oldText: string, added: seq<RRect>, newTexts: seq<string>, matchedAdded: set<int>)
    returns (partner: Option<nat>)
    requires |newTexts| == |added|
    ensures partner == FirstPartner(rbox, oldText, added, newTexts, matchedAdded, 0)
  {
    var aidx := 0;
    while aidx < |added|
      invariant 0 <= aidx <= |added|
      invariant FirstPartner(rbox, oldText, added, newTexts, matchedAdded, 0) == FirstPartner(rbox, oldText, added, newTexts, matchedAdded, aidx)
    {
      var abox := added[aidx];
      if aidx !in matchedAdded && PairGeometry(rbox, abox) {
        var newText := newTexts[aidx];
        if oldText != "" && newText != "" && oldText == newText {
          return Some(aidx);
        }
      }
      aidx := aidx + 1;
    }
    return None;
  }

  /**
   * The outer loop of `suppress_identical_text_pairs`, given the collected
   * text of every removed and every added box.
   */
  method MatchBoxes(removed: seq<RRect>, added: seq<RRect>, oldTexts: seq<string>, newTexts: seq<string>)
    returns (matchedRemoved: set<int>, matchedAdded: set<int>, suppressed: nat)
    requires |oldTexts| == |removed| && |newTexts| == |added|
    ensures var m := MatchSpec(removed, added, oldTexts, newTexts, |removed|);
            matchedRemoved == m.removed && matchedAdded == m.added && suppressed == |m.pairs|
  {
    suppressed := 0;
    matchedRemoved, matchedAdded := {}, {};
    var ridx := 0;
    while ridx < |removed|
      invariant 0 <= ridx <= |removed|
      invariant var m := MatchSpec(removed, added, oldTexts, newTexts, ridx);
                matchedRemoved == m.removed && matchedAdded == m.added && suppressed == |m.pairs|
    {
      if ridx !in matchedRemoved {
        var partner := FindPartner(removed[ridx], oldTexts[ridx], added, newTexts, matchedAdded);
        if partner.Some? {
          matchedRemoved := matchedRemoved + {ridx};
          matchedAdded := matchedAdded + {partner.value};
          suppressed := suppressed + 1;
        }
      }
      ridx := ridx + 1;
    }
  }

  /**
   * `suppress_identical_text_pairs`: each removed box, in order, is paired
   * with the first unpaired added box it forms an identical-text pair
   * with; paired boxes are dropped from both lists.
   */
  method SuppressIdenticalTextPairs(removed: seq<RRect>, added: seq<RRect>, wordsOld: seq<WordBox>, wordsNew: seq<WordBox>)
    returns (keptRemoved: seq<RRect>, keptAdded: seq<RRect>, suppressed: nat)
    ensures (keptRemoved, keptAdded, suppressed) == SuppressSpec(removed, added, wordsOld, wordsNew)
  {
    if removed == [] || added == [] {
      return removed, added, 0;
    }
    var oldTexts, newTexts := TextsOf(wordsOld, removed), TextsOf(wordsNew, added);
    var matchedRemoved, matchedAdded;
    matchedRemoved, matchedAdded, suppressed := MatchBoxes(removed, added, oldTexts, newTexts);
    keptRemoved := Keep(removed, matchedRemoved);
    keptAdded := Keep(added, matchedAdded);
  }

  /** The matched sets hold indices of the two lists, one per pair. */
  lemma {:induction false} MatchCounts(removed: seq<RRect>, added: seq<RRect>, oldTexts: seq<string>, newTexts: seq<string>, n: nat)
    requires n <= |removed| == |oldTexts| && |added| == |newTexts|
    ensures var m := MatchSpec(removed, added, oldTexts, newTexts, n);
            (forall i :: i in m.removed ==> 0 <= i < n)
            && (forall j :: j in m.added ==> 0 <= j < |added|)
            && |m.removed| == |m.pairs| && |m.added| == |m.pairs|
  {
    if n > 0 {
      MatchCounts(removed, added, oldTexts, newTexts, n - 1);
      var m := MatchSpec(removed, added, oldTexts, newTexts, n - 1);
      if n - 1 !in m.removed {
        var f := FirstPartner(removed[n - 1], oldTexts[n - 1], added, newTexts, m.added, 0);
        if f.Some? {
          var m2 := Matching(m.removed + {n - 1}, m.added + {f.value}, m.pairs + [(n - 1, f.value)]);
          assert MatchSpec(removed, added, oldTexts, newTexts, n) == m2;
          assert |m2.removed| == |m.removed| + 1;
          assert f.value !in m.added;
          assert |m2.added| == |m.added| + 1;
        }
      }
    }
  }

  /**
   * Every pair is an identical-text pair whose sides are in the matched
   * sets, and no removed box and no added box is paired twice.
   */
  lemma {:induction false} MatchPairs(removed: seq<RRect>, added: seq<RRect>, oldTexts: seq<string>, newTexts: seq<string>, n: nat)
    requires n <= |removed| == |oldTexts| && |added| == |newTexts|
    ensures var m := MatchSpec(removed, added, oldTexts, newTexts, n);
            (forall p :: p in m.pairs ==>
               (p.0 in m.removed && p.1 in m.added && p.0 < |removed| && p.1 < |added|
                && IdenticalPair(removed[p.0], added[p.1], oldTexts[p.0], newTexts[p.1])))
            && (forall a, b :: 0 <= a < b < |m.pairs| ==> m.pairs[a].0 != m.pairs[b].0 && m.pairs[a].1 != m.pairs[b].1)
  {
    if n > 0 {
      MatchPairs(removed, added, oldTexts, newTexts, n - 1);
      var m := MatchSpec(removed, added, oldTexts, newTexts, n - 1);
      if n - 1 !in m.removed {
        var f := FirstPartner(removed[n - 1], oldTexts[n - 1], added, newTexts, m.added, 0);
        if f.Some? {
          var m2 := MatchSpec(removed, added, oldTexts, newTexts, n);
          assert m2.pairs == m.pairs + [(n - 1, f.value)];
          forall a, b | 0 <= a < b < |m2.pairs| ensures m2.pairs[a].0 != m2.pairs[b].0 && m2.pairs[a].1 != m2.pairs[b].1 {
            if b == |m.pairs| {
              assert m2.pairs[a] in m.pairs;
            }
          }
        }
      }
    }
  }

  /**
   * `suppressed` is exactly the number of boxes dropped from each list,
   * and with either list empty both come back unchanged.
   */
  lemma SuppressCounts(removed: seq<RRect>, added: seq<RRect>, wordsOld: seq<WordBox>, wordsNew: seq<WordBox>)
    ensures var (kr, ka, n) := SuppressSpec(removed, added, wordsOld, wordsNew);
            |kr| + n == |removed| && |ka| + n == |added|
            && (removed == [] || added == [] ==> kr == removed && ka == added && n == 0)
  {
    if removed != [] && added != [] {
      MatchCounts(removed, added, TextsOf(wordsOld, removed), TextsOf(wordsNew, added), |removed|);
      var m := SuppressMatching(removed, added, wordsOld, wordsNew);
      KeepLength(removed, m.removed);
      KeepLength(added, m.added);
    }
  }

  // ---------------------------------------------------------------- filter_identical_text_regions

  /** A removal region with old text `oldText` and new text `newText` is suppressed when the old text is non-empty and they agree. */
  predicate RemovedSuppressed(oldText: string, newText: string) {
    oldText != "" && oldText == newText
  }

  /** An addition region is suppressed when its new text is non-empty and equals its old text. */
  predicate AddedSuppressed(oldText: string, newText: string) {
    newText != "" && oldText == newText
  }

  /** The removal regions, in order, that are not suppressed, given each region's old and new text. */
  function KeptRemoved(boxes: seq<RRect>, oldTexts: seq<string>, newTexts: seq<string>): seq<RRect>
    requires |oldTexts| == |newTexts| == |boxes|
  {
    if boxes == [] then []
    else
      var n := |boxes| - 1;
      KeptRemoved(boxes[..n], oldTexts[..n], newTexts[..n]) + (if RemovedSuppressed(oldTexts[n], newTexts[n]) then [] else [boxes[n]])
  }

  /** The addition regions, in order, that are not suppressed. */
  function KeptAdded(boxes: seq<RRect>, oldTexts: seq<string>, newTexts: seq<string>): seq<RRect>
    requires |oldTexts| == |newTexts| == |boxes|
  {
    if boxes == [] then []
    else
      var n := |boxes| - 1;
      KeptAdded(boxes[..n], oldTexts[..n], newTexts[..n]) + (if AddedSuppressed(oldTexts[n], newTexts[n]) then [] else [boxes[n]])
  }

  /** The first loop of `filter_identical_text_regions`, over the removal regions. */
  method FilterRemoved(removed: seq<RRect>, oldTexts: seq<string>, newTexts: seq<string>)
    returns (keptRemoved: seq<RRect>, suppressed: nat)
    requires |oldTexts| == |newTexts| == |removed|
    ensures keptRemoved == KeptRemoved(removed, oldTexts, newTexts)
    ensures |keptRemoved| + suppressed == |removed|
  {
    keptRemoved, suppressed := [], 0;
    var i := 0;
    while i < |removed|
      invariant 0 <= i <= |removed| && keptRemoved == KeptRemoved(removed[..i], oldTexts[..i], newTexts[..i])
      invariant |keptRemoved| + suppressed == i
    {
      assert removed[..i + 1][..i] == removed[..i];
      assert oldTexts[..i + 1][..i] == oldTexts[..i];
      assert newTexts[..i + 1][..i] == newTexts[..i];
      var oldText, newText := oldTexts[i], newTexts[i];
      if oldText != "" && oldText == newText {
        suppressed := suppressed + 1;
      } else {
        keptRemoved := keptRemoved + [removed[i]];
      }
      i := i + 1;
    }
    assert removed[..i] == removed && oldTexts[..i] == oldTexts && newTexts[..i] == newTexts;
  }

  /** The second loop of `filter_identical_text_regions`, over the addition regions. */
  method FilterAdded(added: seq<RRect>, oldTexts: seq<string>, newTexts: seq<string>)
    returns (keptAdded: seq<RRect>, suppressed: nat)
    requires |oldTexts| == |newTexts| == |added|
    ensures keptAdded == KeptAdded(added, oldTexts, newTexts)
    ensures |keptAdded| + suppressed == |added|
  {
    keptAdded, suppressed := [], 0;
    var i := 0;
    while i < |added|
      invariant 0 <= i <= |added| && keptAdded == KeptAdded(added[..i], oldTexts[..i], newTexts[..i])
      invariant |keptAdded| + suppressed == i
    {
      assert added[..i + 1][..i] == added[..i];
      assert oldTexts[..i + 1][..i] == oldTexts[..i];
      assert newTexts[..i + 1][..i] == newTexts[..i];
      var oldText, newText := oldTexts[i], newTexts[i];
      if newText != "" && oldText == newText {
        suppressed := suppressed + 1;
      } else {
        keptAdded := keptAdded + [added[i]];
      }
      i := i + 1;
    }
    assert added[..i] == added && oldTexts[..i] == oldTexts && newTexts[..i] == newTexts;
  }

  /**
   * `filter_identical_text_regions`: every region whose old and new text
   * agree is dropped, and kept plus suppressed is the total.
   */
  method FilterIdenticalTextRegions(removed: seq<RRect>, added: seq<RRect>, wordsOld: seq<WordBox>, wordsNew: seq<WordBox>)
    returns (keptRemoved: seq<RRect>, keptAdded: seq<RRect>, suppressed: nat)
    ensures keptRemoved == KeptRemoved(removed, TextsOf(wordsOld, removed), TextsOf(wordsNew, removed))
    ensures keptAdded == KeptAdded(added, TextsOf(wordsOld, added), TextsOf(wordsNew, added))
    ensures |keptRemoved| + |keptAdded| + suppressed == |removed| + |added|
  {
    var n1, n2;
    keptRemoved, n1 := FilterRemoved(removed, TextsOf(wordsOld, removed), TextsOf(wordsNew, removed));
    keptAdded, n2 := FilterAdded(added, TextsOf(wordsOld, added), TextsOf(wordsNew, added));
    suppressed := n1 + n2;
  }

  /** A region is kept exactly when its texts do not agree. */
  lemma {:induction false} FilterMembers(boxes: seq<RRect>, oldTexts: seq<string>, newTexts: seq<string>)
    requires |oldTexts| == |newTexts| == |boxes|
    ensures forall x :: x in KeptRemoved(boxes, oldTexts, newTexts) <==>
              exists i :: 0 <= i < |boxes| && boxes[i] == x && !RemovedSuppressed(oldTexts[i], newTexts[i])
    ensures forall x :: x in KeptAdded(boxes, oldTexts, newTexts) <==>
              exists i :: 0 <= i < |boxes| && boxes[i] == x && !AddedSuppressed(oldTexts[i], newTexts[i])
  {
    if boxes != [] {
      var n := |boxes| - 1;
      FilterMembers(boxes[..n], oldTexts[..n], newTexts[..n]);
    }
  }
}
