/**
 * Recolouring stroked paths by editing a page's first content stream
 * (src/compareset/core/pdf_edit.py): the colour operators `q`, `RG` and `Q`
 * of ISO 32000-1 (sections 8.4.4 and 8.6.8) are wrapped around one
 * stand-alone `S` (stroke, section 8.5.3) operator.
 */
module PdfEdit {
  import opened Wrappers
  import opened PdfTypes

  /**
   * `\w` of Python's Unicode regular expressions on Latin-1 text: letters,
   * digits and underscore of ASCII, and the alphanumerics of the Latin-1
   * supplement.
   */
  predicate IsWordChar(c: char) {
    ('a' <= c <= 'z') || ('A' <= c <= 'Z') || ('0' <= c <= '9') || c == '_'
    || c == 'ª' || c == '²' || c == '³' || c == 'µ' || c == '¹' || c == 'º'
    || ('¼' <= c <= '¾') || ('À' <= c <= 'ÿ' && c != '×' && c != '÷')
  }

  /** A match of `\bS\b` at position `i`. */
  predicate StrokeAt(s: string, i: nat) {
    i < |s| && s[i] == 'S' && (i == 0 || !IsWordChar(s[i - 1])) && (i + 1 == |s| || !IsWordChar(s[i + 1]))
  }

  /** The start positions of the matches below `n`, in order (what `finditer` yields). */
  function Strokes(s: string, n: nat): (r: seq<nat>)
    requires n <= |s|
    ensures forall k :: 0 <= k < |r| ==> r[k] < n
  {
    if n == 0 then [] else Strokes(s, n - 1) + (if StrokeAt(s, n - 1) then [n - 1] else [])
  }

  /** The positions are exactly the matches below `n`, each once, in increasing order. */
  lemma {:induction false} StrokesExact(s: string, n: nat)
    requires n <= |s|
    ensures forall k :: 0 <= k < |Strokes(s, n)| ==> StrokeAt(s, Strokes(s, n)[k])
    ensures forall k, l :: 0 <= k < l < |Strokes(s, n)| ==> Strokes(s, n)[k] < Strokes(s, n)[l]
    ensures forall i :: 0 <= i < n && StrokeAt(s, i) ==> i in Strokes(s, n)
  {
    if n > 0 {
      StrokesExact(s, n - 1);
    }
  }

  /** `f"q {r} {g} {b} RG\n"`, with Python's printing of a number given as `str`. */
  function Injection(rgb: Rgb, str: real -> string): string {
    "q " + str(rgb.0) + " " + str(rgb.1) + " " + str(rgb.2) + " RG\n"
  }

  /** `stream[:m] + injection + stream[m:m+1] + "\nQ" + stream[m+1:]`. */
  function Splice(s: string, m: nat, inj: string): string
    requires m < |s|
  {
    s[..m] + inj + s[m..m + 1] + "\nQ" + s[m + 1..]
  }

  /** Around an `S`, the splice wraps it; removing the two insertions gives back the stream. */
  lemma SpliceUndo(s: string, m: nat, inj: string)
    requires m < |s| && s[m] == 'S'
    ensures Splice(s, m, inj) == s[..m] + inj + "S\nQ" + s[m + 1..]
    ensures var t := Splice(s, m, inj);
            t[..m] + t[m + |inj|..m + |inj| + 1] + t[m + |inj| + 3..] == s
  {
    assert s[m..m + 1] == "S";
    var t := Splice(s, m, inj);
    assert t[..m] == s[..m];
    assert t[m + |inj|..m + |inj| + 1] == s[m..m + 1];
    assert t[m + |inj| + 3..] == s[m + 1..];
    assert s[..m] + s[m..m + 1] + s[m + 1..] == s;
  }

  /** `matches[ord_index]` with Python's negative indexing; None is the IndexError. */
  function PyIndex(n: nat, i: int): (r: Option<nat>)
    ensures r.Some? <==> -(n as int) <= i < n
    ensures r.Some? ==> r.value < n && (i >= 0 ==> r.value == i) && (i < 0 ==> r.value == n + i)
  {
    if 0 <= i < n then Some(i) else if -(n as int) <= i < 0 then Some(n + i) else None
  }

  /** The stand-alone `S` that a hint selects: its ordinal, or the first without a hint. */
  function Ordinal(opsHint: Option<(int, int)>): int {
    if opsHint.Some? then opsHint.value.0 else 0
  }

  /**
   * `inject_color_in_stream` on a page's content streams: Ok(None) is
   * `False`; Ok(Some(t)) is `True` with `t` the new first stream.
   * The fill colour is accepted and never read.
   */
  function InjectColor(contents: seq<string>, opsHint: Option<(int, int)>, rgbStroke: Option<Rgb>,
                       rgbFill: Option<Rgb>, paintMode: PaintMode, str: real -> string): Result<Option<string>>
  {
    if paintMode !in {Stroke, Both} || rgbStroke.None? || contents == [] then Ok(None)
    else
      var stream := contents[0];
      var matches := Strokes(stream, |stream|);
      var ord := Ordinal(opsHint);
      if ord >= |matches| then Ok(None)
      else
        var idx := PyIndex(|matches|, ord);
        if idx.None? then Err(IndexError)
        else
          var m := matches[idx.value];
          Ok(Some(Splice(stream, m, Injection(rgbStroke.value, str))))
  }

  /**
   * Nothing is recoloured unless the mode strokes, a stroke colour is given,
   * the page has contents and the ordinal names an existing stand-alone `S`;
   * a negative ordinal counts from the end, and below minus the count it is
   * an IndexError.
   */
  lemma InjectOutcomes(contents: seq<string>, opsHint: Option<(int, int)>, rgbStroke: Option<Rgb>,
                       rgbFill: Option<Rgb>, paintMode: PaintMode, str: real -> string)
    ensures var r := InjectColor(contents, opsHint, rgbStroke, rgbFill, paintMode, str);
            (r == Ok(None) <==>
               paintMode == Fill || rgbStroke.None? || contents == []
               || Ordinal(opsHint) >= |Strokes(contents[0], |contents[0]|)|)
            && (r.Err? <==>
               paintMode != Fill && rgbStroke.Some? && contents != []
               && Ordinal(opsHint) < -|Strokes(contents[0], |contents[0]|)|)
            && (r.Err? ==> r.error == IndexError)
  {
  }

  /**
   * On success the mode strokes, and the chosen `S` (the ordinal-th
   * stand-alone one, counted from the end for a negative ordinal) of the
   * first stream is the one spliced.
   */
  lemma InjectSplice(contents: seq<string>, opsHint: Option<(int, int)>, rgb: Rgb,
                     rgbFill: Option<Rgb>, paintMode: PaintMode, str: real -> string)
    requires InjectColor(contents, opsHint, Some(rgb), rgbFill, paintMode, str).Ok?
    requires InjectColor(contents, opsHint, Some(rgb), rgbFill, paintMode, str).value.Some?
    ensures contents != [] && paintMode != Fill
    ensures var ms := Strokes(contents[0], |contents[0]|);
            -(|ms| as int) <= Ordinal(opsHint) < |ms|
            && StrokeAt(contents[0], ms[PyIndex(|ms|, Ordinal(opsHint)).value])
            && InjectColor(contents, opsHint, Some(rgb), rgbFill, paintMode, str).value.value
               == Splice(contents[0], ms[PyIndex(|ms|, Ordinal(opsHint)).value], Injection(rgb, str))
  {
    var s := contents[0];
    StrokesExact(s, |s|);
  }

  /** The fill colour argument has no effect. */
  lemma InjectIgnoresFill(contents: seq<string>, opsHint: Option<(int, int)>, rgbStroke: Option<Rgb>,
                          fillA: Option<Rgb>, fillB: Option<Rgb>, paintMode: PaintMode, str: real -> string)
    ensures InjectColor(contents, opsHint, rgbStroke, fillA, paintMode, str)
         == InjectColor(contents, opsHint, rgbStroke, fillB, paintMode, str)
  {
  }

  // ---------------------------------------------------------------- recolor_targets_in_pdf

  /** The colour of a target: the removed colour for "removed", the added colour otherwise. */
  function ColorFor(diff: DiffKind, rgbAdded: Rgb, rgbRemoved: Rgb): (c: Rgb)
    ensures diff == Removed ==> c == rgbRemoved
    ensures diff != Removed ==> c == rgbAdded
  {
    if diff == Removed then rgbRemoved else rgbAdded
  }

  /** One target applied to the page's streams: the new streams and whether it succeeded. */
  function Step(contents: seq<string>, t: Target, rgbAdded: Rgb, rgbRemoved: Rgb, str: real -> string)
    : Result<(seq<string>, bool)>
  {
    var r := InjectColor(contents, t.opsHint, Some(ColorFor(t.diff, rgbAdded, rgbRemoved)), None, t.paintMode, str);
    if r.Err? then Err(r.error)
    else if r.value.None? then Ok((contents, false))
    else Ok((contents[0 := r.value.value], true))
  }

  /** The targets of one page applied in order: its final streams and the number of successes. */
  function PageSpec(contents: seq<string>, targets: seq<Target>, rgbAdded: Rgb, rgbRemoved: Rgb, str: real -> string)
    : Result<(seq<string>, nat)>
  {
    if targets == [] then Ok((contents, 0))
    else
      var prev := PageSpec(contents, targets[..|targets| - 1], rgbAdded, rgbRemoved, str);
      if prev.Err? then prev
      else
        var s := Step(prev.value.0, targets[|targets| - 1], rgbAdded, rgbRemoved, str);
        if s.Err? then Err(s.error)
        else Ok((s.value.0, prev.value.1 + (if s.value.1 then 1 else 0)))
  }

  lemma PageErrorSticks(contents: seq<string>, targets: seq<Target>, rgbAdded: Rgb, rgbRemoved: Rgb,
                        str: real -> string, more: seq<Target>)
    requires PageSpec(contents, targets, rgbAdded, rgbRemoved, str).Err?
    ensures PageSpec(contents, targets + more, rgbAdded, rgbRemoved, str) == PageSpec(contents, targets, rgbAdded, rgbRemoved, str)
    decreases |more|
  {
    if more == [] {
      assert targets + more == targets;
    } else {
      var m := more[..|more| - 1];
      PageErrorSticks(contents, targets, rgbAdded, rgbRemoved, str, m);
      assert (targets + more)[..|targets + more| - 1] == targets + m;
    }
  }

  /** One more target applied after the others. */
  lemma PageSnoc(contents: seq<string>, targets: seq<Target>, i: nat, rgbAdded: Rgb, rgbRemoved: Rgb, str: real -> string)
    requires i < |targets|
    requires PageSpec(contents, targets[..i], rgbAdded, rgbRemoved, str).Ok?
    ensures var (streams, n) := PageSpec(contents, targets[..i], rgbAdded, rgbRemoved, str).value;
            var s := Step(streams, targets[i], rgbAdded, rgbRemoved, str);
            PageSpec(contents, targets[..i + 1], rgbAdded, rgbRemoved, str)
              == if s.Err? then Err(s.error) else Ok((s.value.0, n + (if s.value.1 then 1 else 0)))
  {
    assert targets[..i + 1][..i] == targets[..i];
  }

  /** The inner loop of `recolor_targets_in_pdf` over one page's streams. */
  method RecolorPage(contents: seq<string>, targets: seq<Target>, rgbAdded: Rgb, rgbRemoved: Rgb, str: real -> string)
    returns (r: Result<(seq<string>, nat)>)
    ensures r == PageSpec(contents, targets, rgbAdded, rgbRemoved, str)
  {
    var streams := contents;
    var successes := 0;
    var i := 0;
    while i < |targets|
      invariant 0 <= i <= |targets| && PageSpec(contents, targets[..i], rgbAdded, rgbRemoved, str) == Ok((streams, successes))
    {
      PageSnoc(contents, targets, i, rgbAdded, rgbRemoved, str);
      var tgt := targets[i];
      var rgb := ColorFor(tgt.diff, rgbAdded, rgbRemoved);
      var done := InjectColor(streams, tgt.opsHint, Some(rgb), None, tgt.paintMode, str);
      if done.Err? {
        PageErrorSticks(contents, targets[..i + 1], rgbAdded, rgbRemoved, str, targets[i + 1..]);
        assert targets[..i + 1] + targets[i + 1..] == targets;
        return Err(done.error);
      }
      if done.value.Some? {
        streams := streams[0 := done.value.value];
        successes := successes + 1;
      }
      i := i + 1;
    }
    assert targets[..i] == targets;
    r := Ok((streams, successes));
  }

  /** Successes never exceed the targets, and only the first stream is edited. */
  lemma {:induction false} PageBounds(contents: seq<string>, targets: seq<Target>, rgbAdded: Rgb, rgbRemoved: Rgb,
                                      str: real -> string)
    requires PageSpec(contents, targets, rgbAdded, rgbRemoved, str).Ok?
    ensures var (streams, n) := PageSpec(contents, targets, rgbAdded, rgbRemoved, str).value;
            n <= |targets| && |streams| == |contents| && forall k :: 1 <= k < |streams| ==> streams[k] == contents[k]
  {
    if targets != [] {
      PageBounds(contents, targets[..|targets| - 1], rgbAdded, rgbRemoved, str);
    }
  }

  /** Targets that only fill change nothing. */
  lemma {:induction false} FillOnlyUnchanged(contents: seq<string>, targets: seq<Target>, rgbAdded: Rgb, rgbRemoved: Rgb,
                                             str: real -> string)
    requires forall k :: 0 <= k < |targets| ==> targets[k].paintMode == Fill
    ensures PageSpec(contents, targets, rgbAdded, rgbRemoved, str) == Ok((contents, 0))
  {
    if targets != [] {
      FillOnlyUnchanged(contents, targets[..|targets| - 1], rgbAdded, rgbRemoved, str);
    }
  }

  /** The stand-alone strokes of a two-path stream. */
  lemma StrokesExample()
    ensures Strokes("a S\nb S", 7) == [2, 6]
  {
    var s := "a S\nb S";
    assert !StrokeAt(s, 0) && !StrokeAt(s, 1) && StrokeAt(s, 2) && !StrokeAt(s, 3);
    assert !StrokeAt(s, 4) && !StrokeAt(s, 5) && StrokeAt(s, 6);
    assert Strokes(s, 2) == [];
    assert Strokes(s, 3) == [2];
    assert Strokes(s, 6) == [2];
  }

  /**
   * Two strokes, the first targeted as removed: only the first is wrapped,
   * in the removed colour; the second is left as it was.
   */
  lemma RecolorFirstStroke(rgbAdded: Rgb, rgbRemoved: Rgb, str: real -> string)
    ensures var t := Target("p0_obj0", 0, Path, Removed, Stroke, "page:0", Some((0, 0)));
            PageSpec(["a S\nb S"], [t], rgbAdded, rgbRemoved, str)
              == Ok((["a " + Injection(rgbRemoved, str) + "S\nQ\nb S"], 1))
  {
    var s := "a S\nb S";
    var t := Target("p0_obj0", 0, Path, Removed, Stroke, "page:0", Some((0, 0)));
    StrokesExample();
    assert [t][..0] == [];
    assert s[..2] == "a " && s[2..3] == "S" && s[3..] == "\nb S";
    assert Splice(s, 2, Injection(rgbRemoved, str)) == "a " + Injection(rgbRemoved, str) + "S\nQ\nb S";
    var u := "a " + Injection(rgbRemoved, str) + "S\nQ\nb S";
    assert InjectColor([s], t.opsHint, Some(rgbRemoved), None, Stroke, str) == Ok(Some(u));
    assert ColorFor(t.diff, rgbAdded, rgbRemoved) == rgbRemoved;
    assert [s][0 := u] == [u];
    assert Step([s], t, rgbAdded, rgbRemoved, str) == Ok(([u], true));
    assert PageSpec([s], [t][..0], rgbAdded, rgbRemoved, str) == Ok(([s], 0));
  }

  /** The pages the targets name, in order, each recoloured; with the success count of each entry. */
  function DocSpec(pages: seq<seq<string>>, targetsForPages: seq<(int, seq<Target>)>,
                   rgbAdded: Rgb, rgbRemoved: Rgb, str: real -> string): Result<(seq<seq<string>>, seq<nat>)>
  {
    if targetsForPages == [] then Ok((pages, []))
    else
      var prev := DocSpec(pages, targetsForPages[..|targetsForPages| - 1], rgbAdded, rgbRemoved, str);
      if prev.Err? then prev
      else
        var (pageIndex, targets) := targetsForPages[|targetsForPages| - 1];
        var (doc, counts) := prev.value;
        var idx := PyIndex(|doc|, pageIndex);
        if idx.None? then Err(IndexError)
        else
          var done := PageSpec(doc[idx.value], targets, rgbAdded, rgbRemoved, str);
          if done.Err? then Err(done.error)
          else Ok((doc[idx.value := done.value.0], counts + [done.value.1]))
  }

  lemma DocErrorSticks(pages: seq<seq<string>>, tfp: seq<(int, seq<Target>)>, rgbAdded: Rgb, rgbRemoved: Rgb,
                       str: real -> string, more: seq<(int, seq<Target>)>)
    requires DocSpec(pages, tfp, rgbAdded, rgbRemoved, str).Err?
    ensures DocSpec(pages, tfp + more, rgbAdded, rgbRemoved, str) == DocSpec(pages, tfp, rgbAdded, rgbRemoved, str)
    decreases |more|
  {
    if more == [] {
      assert tfp + more == tfp;
    } else {
      var m := more[..|more| - 1];
      DocErrorSticks(pages, tfp, rgbAdded, rgbRemoved, str, m);
      assert (tfp + more)[..|tfp + more| - 1] == tfp + m;
    }
  }

  /** `recolor_targets_in_pdf` over the pages' content streams; the success counts are what it logs. */
  method RecolorTargets(pages: seq<seq<string>>, targetsForPages: seq<(int, seq<Target>)>,
                        rgbAdded: Rgb, rgbRemoved: Rgb, str: real -> string)
    returns (r: Result<(seq<seq<string>>, seq<nat>)>)
    ensures r == DocSpec(pages, targetsForPages, rgbAdded, rgbRemoved, str)
  {
    var doc := pages;
    var counts: seq<nat> := [];
    var i := 0;
    while i < |targetsForPages|
      invariant 0 <= i <= |targetsForPages|
      invariant DocSpec(pages, targetsForPages[..i], rgbAdded, rgbRemoved, str) == Ok((doc, counts))
    {
      assert targetsForPages[..i + 1][..i] == targetsForPages[..i];
      var (pageIndex, targets) := targetsForPages[i];
      var idx := PyIndex(|doc|, pageIndex);
      if idx.None? {
        DocErrorSticks(pages, targetsForPages[..i + 1], rgbAdded, rgbRemoved, str, targetsForPages[i + 1..]);
        assert targetsForPages[..i + 1] + targetsForPages[i + 1..] == targetsForPages;
        return Err(IndexError);
      }
      var done := RecolorPage(doc[idx.value], targets, rgbAdded, rgbRemoved, str);
      if done.Err? {
        DocErrorSticks(pages, targetsForPages[..i + 1], rgbAdded, rgbRemoved, str, targetsForPages[i + 1..]);
        assert targetsForPages[..i + 1] + targetsForPages[i + 1..] == targetsForPages;
        return Err(done.error);
      }
      doc := doc[idx.value := done.value.0];
      counts := counts + [done.value.1];
      i := i + 1;
    }
    assert targetsForPages[..i] == targetsForPages;
    r := Ok((doc, counts));
  }

  /** The page count is kept and each entry's successes are at most its targets. */
  lemma {:induction false} DocBounds(pages: seq<seq<string>>, tfp: seq<(int, seq<Target>)>, rgbAdded: Rgb, rgbRemoved: Rgb,
                                     str: real -> string)
    requires DocSpec(pages, tfp, rgbAdded, rgbRemoved, str).Ok?
    ensures var (doc, counts) := DocSpec(pages, tfp, rgbAdded, rgbRemoved, str).value;
            |doc| == |pages| && |counts| == |tfp|
            && forall k :: 0 <= k < |tfp| ==> counts[k] <= |tfp[k].1|
  {
    if tfp != [] {
      var p := tfp[..|tfp| - 1];
      DocBounds(pages, p, rgbAdded, rgbRemoved, str);
      var (doc, counts) := DocSpec(pages, p, rgbAdded, rgbRemoved, str).value;
      var idx := PyIndex(|doc|, tfp[|tfp| - 1].0);
      PageBounds(doc[idx.value], tfp[|tfp| - 1].1, rgbAdded, rgbRemoved, str);
    }
  }
}
