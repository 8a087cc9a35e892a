/**
 * Comparison parameters, colour schemes, the bundled presets and colour
 * string parsing (src/compareset/presets.py).
 */
module Presets {
  import opened Wrappers
  import opened Text

  /** An RGB colour with channels as given (normally in [0, 1]). */
  datatype Color = Color(r: real, g: real, b: real)

  datatype ColorScheme = ColorScheme(added: Color, removed: Color, modified: Color, text: Color)

  const DefaultColors: ColorScheme :=
    ColorScheme(Color(0.0, 0.73, 0.0), Color(0.84, 0.0, 0.0), Color(0.93, 0.63, 0.0), Color(0.15, 0.15, 0.15))

  /**
   * `ColorScheme.with_overrides`: a given colour replaces its field (a colour
   * tuple is never falsy); absent ones keep the scheme's own.
   */
  function WithOverrides(s: ColorScheme, added: Option<Color>, removed: Option<Color>,
                         modified: Option<Color>, text: Option<Color>): (r: ColorScheme)
    ensures r.added == (if added.Some? then added.value else s.added)
    ensures r.removed == (if removed.Some? then removed.value else s.removed)
    ensures r.modified == (if modified.Some? then modified.value else s.modified)
    ensures r.text == (if text.Some? then text.value else s.text)
  {
    ColorScheme(Or(added, s.added), Or(removed, s.removed), Or(modified, s.modified), Or(text, s.text))
  }

  function Or<T>(o: Option<T>, d: T): T { if o.Some? then o.value else d }

  /** Overriding nothing gives back the same scheme, and overriding is idempotent. */
  lemma WithOverridesLaws(s: ColorScheme, added: Option<Color>, removed: Option<Color>,
                          modified: Option<Color>, text: Option<Color>)
    ensures WithOverrides(s, None, None, None, None) == s
    ensures var once := WithOverrides(s, added, removed, modified, text);
            WithOverrides(once, added, removed, modified, text) == once
  {
  }

  /** The ten fields of `CompareParams`. */
  datatype CompareParams = CompareParams(
    dpi: int, absdiffThreshold: int, ssimThreshold: real, addedThreshold: int, removedThreshold: int,
    minAreaPx: int, paddingPx: int, mergeIou: real, morphKernelPx: int, dilateIterations: int)

  const DefaultParams: CompareParams := CompareParams(300, 25, 0.15, 20, 20, 196, 6, 0.25, 5, 1)

  /** The named-field overrides accepted by `CompareParams.copy`; None leaves a field alone. */
  datatype ParamOverrides = ParamOverrides(
    dpi: Option<int>, absdiffThreshold: Option<int>, ssimThreshold: Option<real>,
    addedThreshold: Option<int>, removedThreshold: Option<int>, minAreaPx: Option<int>,
    paddingPx: Option<int>, mergeIou: Option<real>, morphKernelPx: Option<int>, dilateIterations: Option<int>)

  const NoOverrides: ParamOverrides := ParamOverrides(None, None, None, None, None, None, None, None, None, None)

  /** `CompareParams.copy(**overrides)` (`dataclasses.replace`). */
  function Copy(p: CompareParams, o: ParamOverrides): (r: CompareParams)
    ensures o.dpi.None? ==> r.dpi == p.dpi
    ensures o.dpi.Some? ==> r.dpi == o.dpi.value
    ensures o.absdiffThreshold.None? ==> r.absdiffThreshold == p.absdiffThreshold
    ensures o.absdiffThreshold.Some? ==> r.absdiffThreshold == o.absdiffThreshold.value
    ensures o.ssimThreshold.None? ==> r.ssimThreshold == p.ssimThreshold
    ensures o.ssimThreshold.Some? ==> r.ssimThreshold == o.ssimThreshold.value
    ensures o.addedThreshold.None? ==> r.addedThreshold == p.addedThreshold
    ensures o.addedThreshold.Some? ==> r.addedThreshold == o.addedThreshold.value
    ensures o.removedThreshold.None? ==> r.removedThreshold == p.removedThreshold
    ensures o.removedThreshold.Some? ==> r.removedThreshold == o.removedThreshold.value
    ensures o.minAreaPx.None? ==> r.minAreaPx == p.minAreaPx
    ensures o.minAreaPx.Some? ==> r.minAreaPx == o.minAreaPx.value
    ensures o.paddingPx.None? ==> r.paddingPx == p.paddingPx
    ensures o.paddingPx.Some? ==> r.paddingPx == o.paddingPx.value
    ensures o.mergeIou.None? ==> r.mergeIou == p.mergeIou
    ensures o.mergeIou.Some? ==> r.mergeIou == o.mergeIou.value
    ensures o.morphKernelPx.None? ==> r.morphKernelPx == p.morphKernelPx
    ensures o.morphKernelPx.Some? ==> r.morphKernelPx == o.morphKernelPx.value
    ensures o.dilateIterations.None? ==> r.dilateIterations == p.dilateIterations
    ensures o.dilateIterations.Some? ==> r.dilateIterations == o.dilateIterations.value
  {
    CompareParams(Or(o.dpi, p.dpi), Or(o.absdiffThreshold, p.absdiffThreshold), Or(o.ssimThreshold, p.ssimThreshold),
                  Or(o.addedThreshold, p.addedThreshold), Or(o.removedThreshold, p.removedThreshold),
                  Or(o.minAreaPx, p.minAreaPx), Or(o.paddingPx, p.paddingPx), Or(o.mergeIou, p.mergeIou),
                  Or(o.morphKernelPx, p.morphKernelPx), Or(o.dilateIterations, p.dilateIterations))
  }

  lemma CopyNothing(p: CompareParams)
    ensures Copy(p, NoOverrides) == p
  {
  }

  /** A value of `CompareParams.to_dict`: ints and floats. */
  datatype Num = I(i: int) | R(r: real)

  const ParamKeys: seq<string> := ["dpi", "absdiff_threshold", "ssim_threshold", "added_threshold",
    "removed_threshold", "min_area_px", "padding_px", "merge_iou", "morph_kernel_px", "dilate_iterations"]

  /** `CompareParams.to_dict`: the ten fields under their own names, in declaration order. */
  function ParamsToDict(p: CompareParams): (d: seq<(string, Num)>)
    ensures |d| == 10 && forall i :: 0 <= i < 10 ==> d[i].0 == ParamKeys[i]
    ensures d[0].1 == I(p.dpi) && d[2].1 == R(p.ssimThreshold) && d[7].1 == R(p.mergeIou)
    ensures d[5].1 == I(p.minAreaPx) && d[9].1 == I(p.dilateIterations)
    ensures d[1].1 == I(p.absdiffThreshold) && d[3].1 == I(p.addedThreshold) && d[4].1 == I(p.removedThreshold)
    ensures d[6].1 == I(p.paddingPx) && d[8].1 == I(p.morphKernelPx)
  {
    [("dpi", I(p.dpi)), ("absdiff_threshold", I(p.absdiffThreshold)), ("ssim_threshold", R(p.ssimThreshold)),
     ("added_threshold", I(p.addedThreshold)), ("removed_threshold", I(p.removedThreshold)),
     ("min_area_px", I(p.minAreaPx)), ("padding_px", I(p.paddingPx)), ("merge_iou", R(p.mergeIou)),
     ("morph_kernel_px", I(p.morphKernelPx)), ("dilate_iterations", I(p.dilateIterations))]
  }

  /** The ten keys are distinct, so the dictionary has ten entries. */
  lemma ParamKeysDistinct()
    ensures forall i, j :: 0 <= i < j < |ParamKeys| ==> ParamKeys[i] != ParamKeys[j]
  {
  }

  datatype Preset = Preset(name: string, description: string, params: CompareParams, colors: ColorScheme,
                           fillOpacity: real, strokeWidth: real)

  const Strict: Preset := Preset("strict", "High confidence changes only; smallest tolerance.",
    CompareParams(360, 35, 0.22, 30, 30, 256, 4, 0.2, 3, 1), DefaultColors, 0.25, 1.1)
  const Balanced: Preset := Preset("balanced", "Default mix of sensitivity and noise rejection.",
    CompareParams(300, 25, 0.18, 24, 24, 196, 6, 0.25, 5, 1), DefaultColors, 0.22, 1.0)
  const Loose: Preset := Preset("loose", "Maximum sensitivity; tolerates small noisy regions.",
    CompareParams(240, 18, 0.12, 18, 18, 96, 8, 0.3, 7, 2), DefaultColors, 0.2, 0.9)

  /** `PRESETS`. */
  const Table: map<string, Preset> := map["strict" := Strict, "balanced" := Balanced, "loose" := Loose]

  /** The bundled presets go from strict to loose on the three sensitivity knobs. */
  lemma PresetOrder()
    ensures Table["strict"].params.absdiffThreshold > Table["balanced"].params.absdiffThreshold
                                                   > Table["loose"].params.absdiffThreshold
    ensures Table["strict"].params.minAreaPx > Table["balanced"].params.minAreaPx > Table["loose"].params.minAreaPx
    ensures Table["strict"].params.dpi > Table["balanced"].params.dpi > Table["loose"].params.dpi
    ensures forall k :: k in Table ==> Table[k].name == k
  {
  }

  /** `get_preset`: a case-insensitive lookup; an unknown name is a KeyError. */
  function GetPreset(name: string): (r: Result<Preset>)
    ensures r.Ok? <==> Lower(name) in Table
    ensures r.Ok? ==> r.value == Table[Lower(name)]
    ensures r.Err? ==> r.error == KeyError(name)
  {
    var key := Lower(name);
    if key !in Table then Err(KeyError(name)) else Ok(Table[key])
  }

  /** Looking up a name and its lower-case form agree. */
  lemma GetPresetCaseInsensitive(name: string)
    ensures GetPreset(Lower(name)).Ok? == GetPreset(name).Ok?
    ensures GetPreset(name).Ok? ==> GetPreset(Lower(name)).value == GetPreset(name).value
  {
    LowerIdempotent(name);
  }

  lemma GetPresetUpper()
    ensures GetPreset("STRICT") == Ok(Strict)
  {
    assert Lower("STRICT") == "strict";
  }

  lemma GetPresetUnknown()
    ensures GetPreset("medium").Err?
  {
    assert Lower("medium") == "medium";
  }

  // ---------------------------------------------------------------- parse_color

  /**
   * `int(s, 16)` on a two-character string: two hex digits, or one digit with
   * surrounding whitespace or a leading sign.
   */
  function ParseHexPair(s: string): (r: Option<int>)
    requires |s| == 2
    ensures r.Some? ==> -15 <= r.value <= 255
  {
    var a, b := HexDigit(s[0]), HexDigit(s[1]);
    if a.Some? && b.Some? then Some(16 * a.value + b.value)
    else if b.Some? && IsSpace(s[0]) then Some(b.value)
    else if a.Some? && IsSpace(s[1]) then Some(a.value)
    else if b.Some? && s[0] == '+' then Some(b.value)
    else if b.Some? && s[0] == '-' then Some(-b.value)
    else None
  }

  /** `#RRGGBB[AA]` after the `#`: the first three byte pairs over 255; the alpha pair is not read. */
  function ParseHexColor(hex: string): (r: Result<Color>)
    ensures |hex| != 6 && |hex| != 8 ==> r.Err?
    ensures r.Ok? ==> -1.0 < r.value.r <= 1.0 && -1.0 < r.value.g <= 1.0 && -1.0 < r.value.b <= 1.0
  {
    if |hex| != 6 && |hex| != 8 then Err(ValueError("Hex colors must be #RRGGBB or #RRGGBBAA"))
    else
      var r, g, b := ParseHexPair(hex[0..2]), ParseHexPair(hex[2..4]), ParseHexPair(hex[4..6]);
      if r.None? || g.None? || b.None? then Err(ValueError("invalid literal for int() with base 16"))
      else Ok(Color(r.value as real / 255.0, g.value as real / 255.0, b.value as real / 255.0))
  }

  /** Three channels, all divided by 255 when any exceeds 1. */
  function Scale(c: seq<real>): (r: Color)
    requires |c| == 3
    ensures (forall i :: 0 <= i < 3 ==> 0.0 <= c[i] <= 255.0) ==>
              0.0 <= r.r <= 1.0 && 0.0 <= r.g <= 1.0 && 0.0 <= r.b <= 1.0
    ensures (forall i :: 0 <= i < 3 ==> c[i] <= 1.0) ==> r == Color(c[0], c[1], c[2])
    ensures (exists i :: 0 <= i < 3 && c[i] > 1.0) ==> r == Color(c[0] / 255.0, c[1] / 255.0, c[2] / 255.0)
  {
    if c[0] > 1.0 || c[1] > 1.0 || c[2] > 1.0
    then Color(c[0] / 255.0, c[1] / 255.0, c[2] / 255.0)
    else Color(c[0], c[1], c[2])
  }

  /** The separated form: `;` counts as `,`, exactly three float parts. */
  function ParseSeparatedColor(v: string): (r: Result<Color>)
    ensures |Split(ReplaceChar(v, ';', ','), ',')| != 3 ==> r.Err?
  {
    var parts := Split(ReplaceChar(v, ';', ','), ',');
    if |parts| != 3 then Err(ValueError("RGB colors must provide three comma separated numbers"))
    else
      var ch := ParseFloats(parts);
      if ch.None? then Err(ValueError("could not convert string to float")) else Ok(Scale(ch.value))
  }

  /**
   * `parse_color`: None or blank gives None; a leading `#` selects the hex
   * form, anything else the separated form.
   */
  function ParseColor(value: Option<string>): (r: Result<Option<Color>>)
    ensures value.None? ==> r == Ok(None)
    ensures value.Some? && Strip(value.value) == [] ==> r == Ok(None)
    ensures value.Some? && Strip(value.value) != [] && Strip(value.value)[0] == '#' ==>
              (r.Ok? <==> ParseHexColor(Strip(value.value)[1..]).Ok?) &&
              (r.Ok? ==> r.value == Some(ParseHexColor(Strip(value.value)[1..]).value))
    ensures value.Some? && Strip(value.value) != [] && Strip(value.value)[0] != '#' ==>
              (r.Ok? <==> ParseSeparatedColor(Strip(value.value)).Ok?) &&
              (r.Ok? ==> r.value == Some(ParseSeparatedColor(Strip(value.value)).value))
  {
    if value.None? then Ok(None)
    else
      var v := Strip(value.value);
      if v == [] then Ok(None)
      else
        var c := if v[0] == '#' then ParseHexColor(v[1..]) else ParseSeparatedColor(v);
        if c.Err? then Err(c.error) else Ok(Some(c.value))
  }

  /** Six hex digits (and any two more characters after them) give the three bytes over 255, each in [0, 1]. */
  lemma HexColor(hex: string)
    requires |hex| == 6 || |hex| == 8
    requires forall i :: 0 <= i < 6 ==> IsHexDigit(hex[i])
    ensures var r := ParseHexColor(hex);
            r.Ok? && r.value == Color((16 * HexValue(hex[0]) + HexValue(hex[1])) as real / 255.0,
                                      (16 * HexValue(hex[2]) + HexValue(hex[3])) as real / 255.0,
                                      (16 * HexValue(hex[4]) + HexValue(hex[5])) as real / 255.0)
            && 0.0 <= r.value.r <= 1.0 && 0.0 <= r.value.g <= 1.0 && 0.0 <= r.value.b <= 1.0
  {
    assert hex[0..2] == [hex[0], hex[1]] && hex[2..4] == [hex[2], hex[3]] && hex[4..6] == [hex[4], hex[5]];
  }

  /** A character among the first six that is neither a hex digit, whitespace nor a sign is a ValueError. */
  lemma HexBadDigit(hex: string, i: int)
    requires 0 <= i < 6 <= |hex|
    requires !IsHexDigit(hex[i]) && !IsSpace(hex[i]) && hex[i] != '+' && hex[i] != '-'
    ensures ParseHexColor(hex).Err?
  {
    assert hex[0..2] == [hex[0], hex[1]] && hex[2..4] == [hex[2], hex[3]] && hex[4..6] == [hex[4], hex[5]];
  }

  lemma ParseBlank()
    ensures ParseColor(Some("   ")) == Ok(None)
  {
    assert TrimLeft("   ") == [];
  }
}
