/**
 * The command-line helpers (src/compareset/__main__.py): reading the
 * `--ignore-roi` values and laying the command-line values over a preset's
 * parameters.
 */
module Cli {
  import opened Wrappers
  import opened Text
  import opened Geometry
  import opened Presets
  import CompareMasks

  // ---------------------------------------------------------------- _parse_rois

  /** `p<N>:` or `P<N>:` in front of the coordinates. */
  predicate HasPagePrefix(v: string) {
    v != [] && LowerChar(v[0]) == 'p' && ':' in v
  }

  /** The page of `p<N>`: N - 1, raised to 0 when below. */
  function PageOf(n: int): (p: int)
    ensures p >= 0 && (n >= 1 ==> p == n - 1)
  {
    if n - 1 < 0 then 0 else n - 1
  }

  /** The text after the first `:` when there is a page prefix, else all of it. */
  function CoordText(v: string): string {
    if HasPagePrefix(v) then v[IndexOf(v, ':') + 1..] else v
  }

  /** The page number text between the `p` and the first `:`. */
  function PageText(v: string): string
    requires HasPagePrefix(v)
  {
    v[1..IndexOf(v, ':')]
  }

  /** The rectangle with its corners ordered: (min x, min y, max x, max y). */
  function Normalise(c: seq<real>): (r: RRect)
    requires |c| == 4
    ensures r.x0 <= r.x1 && r.y0 <= r.y1
    ensures {r.x0, r.x1} == {c[0], c[2]} && {r.y0, r.y1} == {c[1], c[3]}
  {
    RRect(MinR(c[0], c[2]), MinR(c[1], c[3]), MaxR(c[0], c[2]), MaxR(c[1], c[3]))
  }

  /**
   * One `--ignore-roi` value.  `Ok(None)` is a blank value (skipped); a bad
   * page specifier, a count other than four or a coordinate that is not a
   * float is a ValueError, checked in that order.
   */
  function ParseRoi(value: string): Result<Option<CompareMasks.RoiMask>>
  {
    var v := Strip(value);
    if v == [] then Ok(None)
    else
      var page: Result<Option<int>> :=
        if !HasPagePrefix(v) then Ok(None)
        else
          var n := ParseInt(PageText(v));
          if n.None? then Err(ValueError("Invalid ROI page specifier '" + v[..IndexOf(v, ':')] + "'"))
          else Ok(Some(PageOf(n.value)));
      if page.Err? then Err(page.error)
      else
        var parts := Split(CoordText(v), ',');
        if |parts| != 4 then Err(ValueError("ROI '" + v + "' must have four coordinates"))
        else
          var c := ParseFloats(parts);
          if c.None? then Err(ValueError("ROI '" + v + "' has invalid coordinates"))
          else Ok(Some(CompareMasks.RoiMask(page.value, Normalise(c.value))))
  }

  /** The outcome of one value: blank, a bad page, a bad count, or the normalised rectangle on its page. */
  lemma ParseRoiLaws(value: string)
    ensures var r := ParseRoi(value); r == Ok(None) <==> Strip(value) == []
    ensures var r := ParseRoi(value);
            HasPagePrefix(Strip(value)) && ParseInt(PageText(Strip(value))).None? ==> r.Err?
    ensures var r := ParseRoi(value);
            Strip(value) != [] && |Split(CoordText(Strip(value)), ',')| != 4 ==> r.Err?
    ensures var r := ParseRoi(value);
            r.Ok? && r.value.Some? ==>
              var v := Strip(value);
              var c := ParseFloats(Split(CoordText(v), ','));
              |Split(CoordText(v), ',')| == 4 && c.Some? && r.value.value.rect == Normalise(c.value)
              && (r.value.value.pageIndex.Some? <==> HasPagePrefix(v))
              && (HasPagePrefix(v) ==> r.value.value.pageIndex == Some(PageOf(ParseInt(PageText(v)).value)))
  {
  }

  /** What `_parse_rois` returns: the first error, or the masks of the non-blank values in order. */
  function ParseRoisSpec(values: seq<string>): Result<seq<CompareMasks.RoiMask>> {
    if values == [] then Ok([])
    else
      var acc := ParseRoisSpec(values[..|values| - 1]);
      var one := ParseRoi(values[|values| - 1]);
      if acc.Err? then acc
      else if one.Err? then Err(one.error)
      else if one.value.None? then acc
      else Ok(acc.value + [one.value.value])
  }

  /** Once a prefix fails, the whole list fails with the same error. */
  lemma {:induction false} ErrorSticks(values: seq<string>, i: nat)
    requires i <= |values| && ParseRoisSpec(values[..i]).Err?
    ensures ParseRoisSpec(values) == ParseRoisSpec(values[..i])
    decreases |values| - i
  {
    if i < |values| {
      assert values[..i + 1][..i] == values[..i];
      ErrorSticks(values, i + 1);
    } else {
      assert values[..i] == values;
    }
  }

  /** `_parse_rois`: blank values are skipped, the first bad one raises. */
  method ParseRois(values: seq<string>) returns (r: Result<seq<CompareMasks.RoiMask>>)
    ensures r == ParseRoisSpec(values)
  {
    var rois: seq<CompareMasks.RoiMask> := [];
    var i := 0;
    while i < |values|
      invariant 0 <= i <= |values|
      invariant ParseRoisSpec(values[..i]) == Ok(rois)
    {
      assert values[..i + 1][..i] == values[..i];
      var one := ParseRoi(values[i]);
      if one.Err? {
        ErrorSticks(values, i + 1);
        return Err(one.error);
      }
      if one.value.Some? {
        rois := rois + [one.value.value];
      }
      i := i + 1;
    }
    assert values[..i] == values;
    r := Ok(rois);
  }

  function CountNonBlank(values: seq<string>): nat {
    if values == [] then 0
    else CountNonBlank(values[..|values| - 1]) + (if Strip(values[|values| - 1]) == [] then 0 else 1)
  }

  /** The list parses exactly when every value does. */
  lemma ParseRoisOk(values: seq<string>)
    ensures ParseRoisSpec(values).Ok? <==> forall i :: 0 <= i < |values| ==> ParseRoi(values[i]).Ok?
  {
    ParseRoisOkAll(values);
    ParseRoisErrOne(values);
  }

  lemma {:induction false} ParseRoisOkAll(values: seq<string>)
    ensures ParseRoisSpec(values).Ok? ==> forall i :: 0 <= i < |values| ==> ParseRoi(values[i]).Ok?
  {
    if values != [] && ParseRoisSpec(values).Ok? {
      var p := values[..|values| - 1];
      ParseRoisOkAll(p);
      forall i | 0 <= i < |values| - 1 ensures ParseRoi(values[i]).Ok? {
        assert p[i] == values[i];
      }
    }
  }

  lemma {:induction false} ParseRoisErrOne(values: seq<string>)
    ensures ParseRoisSpec(values).Err? ==> exists i :: 0 <= i < |values| && !ParseRoi(values[i]).Ok?
  {
    if values != [] && ParseRoisSpec(values).Err? {
      var p := values[..|values| - 1];
      ParseRoisErrOne(p);
      if ParseRoisSpec(p).Err? {
        var i :| 0 <= i < |p| && !ParseRoi(p[i]).Ok?;
        assert p[i] == values[i];
      } else {
        assert !ParseRoi(values[|values| - 1]).Ok?;
      }
    }
  }

  /** One mask per non-blank value. */
  lemma {:induction false} ParseRoisCount(values: seq<string>)
    ensures ParseRoisSpec(values).Ok? ==> |ParseRoisSpec(values).value| == CountNonBlank(values)
  {
    if values != [] {
      ParseRoisCount(values[..|values| - 1]);
      ParseRoiLaws(values[|values| - 1]);
    }
  }

  /** Every mask is the parse of one of the values, with ordered corners and a page index of at least 0. */
  lemma ParseRoisMembers(values: seq<string>)
    ensures ParseRoisSpec(values).Ok? ==> forall m :: m in ParseRoisSpec(values).value ==>
              (exists i :: 0 <= i < |values| && ParseRoi(values[i]) == Ok(Some(m)))
              && m.rect.x0 <= m.rect.x1 && m.rect.y0 <= m.rect.y1
              && (m.pageIndex.Some? ==> m.pageIndex.value >= 0)
  {
    ParseRoisFrom(values);
    if ParseRoisSpec(values).Ok? {
      forall m | m in ParseRoisSpec(values).value
        ensures m.rect.x0 <= m.rect.x1 && m.rect.y0 <= m.rect.y1 && (m.pageIndex.Some? ==> m.pageIndex.value >= 0)
      {
        var i :| 0 <= i < |values| && ParseRoi(values[i]) == Ok(Some(m));
        ParseRoiShape(values[i]);
      }
    }
  }

  /** A parsed mask has ordered corners and a page index of at least 0. */
  lemma ParseRoiShape(value: string)
    ensures var r := ParseRoi(value);
            r.Ok? && r.value.Some? ==>
              r.value.value.rect.x0 <= r.value.value.rect.x1 && r.value.value.rect.y0 <= r.value.value.rect.y1
              && (r.value.value.pageIndex.Some? ==> r.value.value.pageIndex.value >= 0)
  {
  }

  lemma {:induction false} ParseRoisFrom(values: seq<string>)
    ensures ParseRoisSpec(values).Ok? ==> forall m :: m in ParseRoisSpec(values).value ==>
              exists i :: 0 <= i < |values| && ParseRoi(values[i]) == Ok(Some(m))
  {
    if values != [] && ParseRoisSpec(values).Ok? {
      var p := values[..|values| - 1];
      ParseRoisFrom(p);
      var acc := ParseRoisSpec(p).value;
      var one := ParseRoi(values[|values| - 1]);
      forall m | m in ParseRoisSpec(values).value
        ensures exists i :: 0 <= i < |values| && ParseRoi(values[i]) == Ok(Some(m))
      {
        if m in acc {
          var i :| 0 <= i < |p| && ParseRoi(p[i]) == Ok(Some(m));
          assert p[i] == values[i];
        } else {
          assert one == Ok(Some(m));
        }
      }
    }
  }

  lemma ParseRoisEmpty()
    ensures ParseRoisSpec([]) == Ok([])
  {
  }

  // ---------------------------------------------------------------- _override_params

  /** The command-line values that `_override_params` reads; None when not given. */
  datatype CliArgs = CliArgs(
    dpi: Option<int>, absdiffThreshold: Option<int>, ssimThreshold: Option<real>,
    morphKernel: Option<int>, dilateIterations: Option<int>, addedThreshold: Option<int>,
    removedThreshold: Option<int>, mergeIou: Option<real>, touchGapPx: Option<int>,
    containEpsPx: Option<int>, padding: Option<int>, minBoxArea: Option<int>)

  function OptI(o: Option<int>): Option<Num> { if o.Some? then Some(I(o.value)) else None }
  function OptR(o: Option<real>): Option<Num> { if o.Some? then Some(R(o.value)) else None }

  /** The loop's table of (field name, command-line value), in its order. */
  function FieldTable(a: CliArgs): seq<(string, Option<Num>)> {
    [("dpi", OptI(a.dpi)), ("absdiff_threshold", OptI(a.absdiffThreshold)),
     ("ssim_threshold", OptR(a.ssimThreshold)), ("morph_kernel_px", OptI(a.morphKernel)),
     ("dilate_iterations", OptI(a.dilateIterations)), ("added_threshold", OptI(a.addedThreshold)),
     ("removed_threshold", OptI(a.removedThreshold)), ("merge_iou", OptR(a.mergeIou)),
     ("touch_gap_px", OptI(a.touchGapPx)), ("contain_eps_px", OptI(a.containEpsPx)),
     ("padding_px", OptI(a.padding)), ("min_box_area_px", OptI(a.minBoxArea))]
  }

  /** The `overrides` dict after the loop has seen the entries of `t`. */
  function Collect(t: seq<(string, Option<Num>)>): map<string, Num> {
    if t == [] then map[]
    else
      var m := Collect(t[..|t| - 1]);
      var e := t[|t| - 1];
      if e.1.Some? then m[e.0 := e.1.value] else m
  }

  /** A key is collected exactly when some entry under it has a value; with distinct names that value. */
  lemma {:induction false} CollectSpec(t: seq<(string, Option<Num>)>)
    ensures forall k :: k in Collect(t) <==> exists i :: 0 <= i < |t| && t[i].0 == k && t[i].1.Some?
    ensures (forall i, j :: 0 <= i < j < |t| ==> t[i].0 != t[j].0) ==>
              forall i :: 0 <= i < |t| && t[i].1.Some? ==> Collect(t)[t[i].0] == t[i].1.value
  {
    if t != [] {
      var p := t[..|t| - 1];
      CollectSpec(p);
      assert forall i :: 0 <= i < |p| ==> p[i] == t[i];
    }
  }

  /** Every value the table holds for an int field is an int, and for a float field a float. */
  predicate WellTyped(m: map<string, Num>) {
    forall k :: k in m ==> (m[k].R? <==> k == "ssim_threshold" || k == "merge_iou")
  }

  function IntField(m: map<string, Num>, k: string): Option<int> {
    if k in m && m[k].I? then Some(m[k].i) else None
  }

  function RealField(m: map<string, Num>, k: string): Option<real> {
    if k in m && m[k].R? then Some(m[k].r) else None
  }

  /**
   * `CompareParams.copy(**overrides)`, i.e. `dataclasses.replace`: a keyword
   * that is not one of the ten fields is a TypeError; otherwise the named
   * fields are replaced.
   */
  function Replace(p: CompareParams, m: map<string, Num>): (r: Result<CompareParams>)
    requires WellTyped(m)
    ensures r.Err? <==> exists k :: k in m && k !in ParamKeys
  {
    if exists k :: k in m && k !in ParamKeys then Err(TypeError("unexpected keyword argument"))
    else
      Ok(Copy(p, ParamOverrides(IntField(m, "dpi"), IntField(m, "absdiff_threshold"),
                                RealField(m, "ssim_threshold"), IntField(m, "added_threshold"),
                                IntField(m, "removed_threshold"), IntField(m, "min_area_px"),
                                IntField(m, "padding_px"), RealField(m, "merge_iou"),
                                IntField(m, "morph_kernel_px"), IntField(m, "dilate_iterations"))))
  }

  lemma TableDistinct(a: CliArgs)
    ensures forall i, j :: 0 <= i < j < |FieldTable(a)| ==> FieldTable(a)[i].0 != FieldTable(a)[j].0
  {
  }

  /** What the loop collects under the name at row `i` of the table. */
  lemma LookupRow(a: CliArgs, i: nat)
    requires i < 12
    ensures FieldTable(a)[i].0 in Collect(FieldTable(a)) <==> FieldTable(a)[i].1.Some?
    ensures FieldTable(a)[i].1.Some? ==> Collect(FieldTable(a))[FieldTable(a)[i].0] == FieldTable(a)[i].1.value
  {
    TableDistinct(a);
    CollectSpec(FieldTable(a));
  }

  lemma TableFacts(a: CliArgs)
    ensures WellTyped(Collect(FieldTable(a)))
  {
    var t := FieldTable(a);
    var m := Collect(t);
    CollectSpec(t);
    TableDistinct(a);
    forall k | k in m ensures m[k].R? <==> k == "ssim_threshold" || k == "merge_iou" {
      var i :| 0 <= i < |t| && t[i].0 == k && t[i].1.Some?;
      RowType(a, i);
      assert m[k] == t[i].1.value;
    }
  }

  /** The two float options sit under the two float keys. */
  lemma RowType(a: CliArgs, i: nat)
    requires i < 12
    ensures var e := FieldTable(a)[i];
            e.1.Some? ==> (e.1.value.R? <==> e.0 == "ssim_threshold" || e.0 == "merge_iou")
  {
  }

  /** Rows 8, 9 and 11 are the only names that are not `CompareParams` fields. */
  lemma RowKnown(a: CliArgs, i: nat)
    requires i < 12
    ensures FieldTable(a)[i].0 !in ParamKeys <==> i == 8 || i == 9 || i == 11
  {
  }

  /** The params `_override_params` returns for `args` over `preset`. */
  function OverrideSpec(preset: CompareParams, args: CliArgs): Result<CompareParams> {
    TableFacts(args);
    Replace(preset, Collect(FieldTable(args)))
  }

  /** `_override_params`: copy every given command-line value into the dict, then `copy`. */
  method OverrideParams(preset: CompareParams, args: CliArgs) returns (r: Result<CompareParams>)
    ensures r == OverrideSpec(preset, args)
  {
    var table := FieldTable(args);
    var overrides: map<string, Num> := map[];
    var i := 0;
    while i < |table|
      invariant 0 <= i <= |table|
      invariant overrides == Collect(table[..i])
    {
      assert table[..i + 1][..i] == table[..i];
      if table[i].1.Some? {
        overrides := overrides[table[i].0 := table[i].1.value];
      }
      i := i + 1;
    }
    assert table[..i] == table;
    TableFacts(args);
    r := Replace(preset, overrides);
  }

  /**
   * A field takes the command-line value exactly when one was given and keeps
   * the preset's otherwise.  `touch_gap_px`, `contain_eps_px` and
   * `min_box_area_px` are not fields of the parameters, so giving any of
   * them is a TypeError, and `min_area_px` always keeps the preset's value.
   */
  lemma OverrideLaws(preset: CompareParams, args: CliArgs)
    ensures OverrideSpec(preset, args).Err? <==>
              args.touchGapPx.Some? || args.containEpsPx.Some? || args.minBoxArea.Some?
    ensures OverrideSpec(preset, args).Ok? ==>
              OverrideSpec(preset, args).value ==
                Copy(preset, ParamOverrides(args.dpi, args.absdiffThreshold, args.ssimThreshold,
                                            args.addedThreshold, args.removedThreshold, None,
                                            args.padding, args.mergeIou, args.morphKernel,
                                            args.dilateIterations))
  {
    OverrideErrors(args);
    if !(args.touchGapPx.Some? || args.containEpsPx.Some? || args.minBoxArea.Some?) {
      OverrideFields(args);
    }
  }

  lemma OverrideErrors(args: CliArgs)
    ensures (exists k :: k in Collect(FieldTable(args)) && k !in ParamKeys) <==>
              args.touchGapPx.Some? || args.containEpsPx.Some? || args.minBoxArea.Some?
  {
    UnknownWhenGiven(args);
    UnknownOnlyThese(args);
  }

  /** A given `--touch-gap`, `--contain-eps` or `--min-box-area` puts a key `CompareParams` lacks into the dict. */
  lemma UnknownWhenGiven(args: CliArgs)
    ensures args.touchGapPx.Some? || args.containEpsPx.Some? || args.minBoxArea.Some? ==>
              exists k :: k in Collect(FieldTable(args)) && k !in ParamKeys
  {
    var t := FieldTable(args);
    LookupRow(args, 8);
    LookupRow(args, 9);
    LookupRow(args, 11);
    assert t[8].0 !in ParamKeys && t[9].0 !in ParamKeys && t[11].0 !in ParamKeys;
  }

  /** Every other key the dict can hold is a `CompareParams` field. */
  lemma UnknownOnlyThese(args: CliArgs)
    ensures (exists k :: k in Collect(FieldTable(args)) && k !in ParamKeys) ==>
              args.touchGapPx.Some? || args.containEpsPx.Some? || args.minBoxArea.Some?
  {
    var t := FieldTable(args);
    var m := Collect(t);
    CollectSpec(t);
    if exists k :: k in m && k !in ParamKeys {
      var k :| k in m && k !in ParamKeys;
      var i :| 0 <= i < |t| && t[i].0 == k && t[i].1.Some?;
      RowKnown(args, i);
    }
  }

  lemma OverrideFields(args: CliArgs)
    ensures var m := Collect(FieldTable(args));
            IntField(m, "dpi") == args.dpi && IntField(m, "absdiff_threshold") == args.absdiffThreshold
            && RealField(m, "ssim_threshold") == args.ssimThreshold
            && IntField(m, "morph_kernel_px") == args.morphKernel
            && IntField(m, "dilate_iterations") == args.dilateIterations
            && IntField(m, "added_threshold") == args.addedThreshold
            && IntField(m, "removed_threshold") == args.removedThreshold
            && RealField(m, "merge_iou") == args.mergeIou
            && IntField(m, "padding_px") == args.padding
            && IntField(m, "min_area_px") == None
  {
    FieldsLow(args);
    FieldsHigh(args);
    NoMinArea(args);
  }

  lemma FieldsLow(args: CliArgs)
    ensures var m := Collect(FieldTable(args));
            IntField(m, "dpi") == args.dpi && IntField(m, "absdiff_threshold") == args.absdiffThreshold
            && RealField(m, "ssim_threshold") == args.ssimThreshold
            && IntField(m, "morph_kernel_px") == args.morphKernel
            && IntField(m, "dilate_iterations") == args.dilateIterations
  {
    LookupRow(args, 0);
    LookupRow(args, 1);
    LookupRow(args, 2);
    LookupRow(args, 3);
    LookupRow(args, 4);
  }

  lemma FieldsHigh(args: CliArgs)
    ensures var m := Collect(FieldTable(args));
            IntField(m, "added_threshold") == args.addedThreshold
            && IntField(m, "removed_threshold") == args.removedThreshold
            && RealField(m, "merge_iou") == args.mergeIou
            && IntField(m, "padding_px") == args.padding
  {
    LookupRow(args, 5);
    LookupRow(args, 6);
    LookupRow(args, 7);
    LookupRow(args, 10);
  }

  lemma NoMinArea(args: CliArgs)
    ensures "min_area_px" !in Collect(FieldTable(args))
  {
    var t := FieldTable(args);
    CollectSpec(t);
    assert forall i :: 0 <= i < 12 ==> t[i].0 != "min_area_px";
  }

  /** No command-line value leaves the preset as it is. */
  lemma OverrideNothing(preset: CompareParams)
    ensures OverrideSpec(preset, CliArgs(None, None, None, None, None, None, None, None, None, None, None, None))
            == Ok(preset)
  {
    var args := CliArgs(None, None, None, None, None, None, None, None, None, None, None, None);
    OverrideLaws(preset, args);
    CopyNothing(preset);
  }
}
