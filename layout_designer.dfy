/**
 * The style text of developer_layout_designer.py: `_parse_style` reads a
 * widget's Qt style sheet back into the designer's fields, and
 * `_build_style` writes the fields (the widget values, passed in here) as a
 * style sheet with an optional `QPushButton:hover { }` block.
 */
module LayoutDesigner {
  import opened Wrappers
  import Text

  /** `w in s` for a non-empty `w`: some position of `s` starts with `w`. */
  predicate Contains(s: string, w: string)
    decreases |s|
  {
    Text.StartsWith(s, w) || (s != [] && Contains(s[1..], w))
  }

  /** `s.endswith("px")`. */
  predicate EndsWithPx(s: string) {
    |s| >= 2 && s[|s| - 2..] == "px"
  }

  /** `s.replace("px", "")`: every occurrence, scanning from the left. */
  function DropPx(s: string): (r: string)
    ensures |r| <= |s|
    decreases |s|
  {
    if |s| >= 2 && s[..2] == "px" then DropPx(s[2..])
    else if s == [] then []
    else [s[0]] + DropPx(s[1..])
  }

  /** `token.split(":", 1)[1].strip()`: the stripped text after the first colon. */
  function ValueOf(token: string): string {
    var i := Text.IndexOf(token, ':');
    if i < |token| then Text.Strip(token[i + 1..]) else ""
  }

  /** `style.replace("{", ";").replace("}", ";")`. */
  function Braces(style: string): (r: string)
    ensures |r| == |style|
    ensures forall k :: 0 <= k < |r| ==> r[k] == (if style[k] == '{' || style[k] == '}' then ';' else style[k])
  {
    Text.ReplaceChar(Text.ReplaceChar(style, '{', ';'), '}', ';')
  }

  /** The stripped pieces that are not blank. */
  function Clean(pieces: seq<string>): (r: seq<string>)
    ensures |r| <= |pieces|
  {
    if pieces == [] then []
    else
      var t := Text.Strip(pieces[0]);
      (if t == "" then [] else [t]) + Clean(pieces[1..])
  }

  /** The characters `str.strip` keeps are characters of the text. */
  lemma StripChars(s: string)
    ensures forall c :: c in Text.Strip(s) ==> c in s
  {
    var t := Text.TrimLeft(s);
    Text.TrimLeftSuffix(s);
    Text.TrimRightPrefix(t);
    assert forall c :: c in Text.TrimRight(t) ==> c in t;
    assert forall c :: c in t ==> c in s;
  }

  /** The pieces of `str.split` are made of characters of the text. */
  lemma {:induction false} SplitChars(s: string, sep: char)
    ensures forall i, c :: 0 <= i < |Text.Split(s, sep)| && c in Text.Split(s, sep)[i] ==> c in s
    decreases |s|
  {
    var i := Text.IndexOf(s, sep);
    if i < |s| {
      SplitChars(s[i + 1..], sep);
      assert forall c :: c in s[..i] ==> c in s;
      assert forall c :: c in s[i + 1..] ==> c in s;
    }
  }

  /** What `Clean` keeps is stripped, not blank, and made of characters of the pieces. */
  lemma {:induction false} CleanLaws(pieces: seq<string>, bad: set<char>)
    requires forall i :: 0 <= i < |pieces| ==> forall c :: c in pieces[i] ==> c !in bad
    ensures forall k :: 0 <= k < |Clean(pieces)| ==> Clean(pieces)[k] != "" && Text.Strip(Clean(pieces)[k]) == Clean(pieces)[k]
    ensures forall k :: 0 <= k < |Clean(pieces)| ==> forall c :: c in Clean(pieces)[k] ==> c !in bad
  {
    if pieces != [] {
      CleanLaws(pieces[1..], bad);
      var t := Text.Strip(pieces[0]);
      StripChars(pieces[0]);
      Text.StripNoSpace(t);
    }
  }

  /**
   * The tokens of `_parse_style`: braces act as separators, the text is
   * split at the semicolons, and each piece is stripped and dropped when
   * blank. No token is blank, has surrounding whitespace, or holds a
   * separator.
   */
  function Tokens(style: string): (ts: seq<string>)
    ensures forall k :: 0 <= k < |ts| ==> ts[k] != "" && Text.Strip(ts[k]) == ts[k]
    ensures forall k :: 0 <= k < |ts| ==> ';' !in ts[k] && '{' !in ts[k] && '}' !in ts[k]
  {
    var b := Braces(style);
    var pieces := Text.Split(b, ';');
    SplitChars(b, ';');
    forall i, c | 0 <= i < |pieces| && c in pieces[i]
      ensures c !in {';', '{', '}'}
    {
      assert c in b && c != ';';
    }
    CleanLaws(pieces, {';', '{', '}'});
    Clean(pieces)
  }

  /** The designer fields a style sets; `None` is a key missing from the parsed dict. */
  datatype StyleFields = StyleFields(
    color: Option<string>,
    background: Option<string>,
    fontSize: Option<int>,
    bold: Option<bool>,
    borderWidth: Option<int>,
    borderColor: Option<string>,
    hoverText: Option<string>,
    hoverBackground: Option<string>)

  const NoFields := StyleFields(None, None, None, None, None, None, None, None)

  /** The branches of the `elif` chain in `_parse_style`. */
  datatype Rule = ColorRule | BackgroundRule | FontSizeRule | FontWeightRule | BorderRule
                | HoverTextRule | HoverBackgroundRule | NoRule

  /** The branch a token takes: the first test it passes. */
  function RuleOf(token: string): Rule {
    if Text.StartsWith(token, "color:") && !Contains(token, "hover") then ColorRule
    else if Text.StartsWith(token, "background-color:") && !Contains(token, "hover") then BackgroundRule
    else if Text.StartsWith(token, "font-size:") then FontSizeRule
    else if Text.StartsWith(token, "font-weight:") then FontWeightRule
    else if Text.StartsWith(token, "border:") then BorderRule
    else if Text.StartsWith(token, "hover-color:") then HoverTextRule
    else if Text.StartsWith(token, "hover-background:") then HoverBackgroundRule
    else NoRule
  }

  /** The width a part of a `border:` token gives: a `px` part that is an integer once `px` is dropped. */
  function WidthOf(part: string): Option<int> {
    if EndsWithPx(part) then Text.ParseInt(DropPx(part)) else None
  }

  /** The colour a part of a `border:` token gives: any part but a `px` one, `border:` and `solid`. */
  function BorderColorOf(part: string): Option<string> {
    if !EndsWithPx(part) && part != "border:" && part != "solid" then Some(part) else None
  }

  /** `b` when it holds a value, otherwise `a`: a later assignment to a key wins. */
  function Or<T>(a: Option<T>, b: Option<T>): Option<T> {
    if b.Some? then b else a
  }

  /** One pass of the loop over the parts of a `border:` token. */
  function BorderPart(p: StyleFields, part: string): StyleFields {
    p.(borderWidth := Or(p.borderWidth, WidthOf(part)), borderColor := Or(p.borderColor, BorderColorOf(part)))
  }

  /** The loop over the parts of a `border:` token. */
  function BorderParts(p: StyleFields, parts: seq<string>): StyleFields {
    if parts == [] then p else BorderPart(BorderParts(p, parts[..|parts| - 1]), parts[|parts| - 1])
  }

  /** One pass of the loop over the tokens. */
  function Step(p: StyleFields, token: string): StyleFields {
    match RuleOf(token)
    case ColorRule => p.(color := Some(ValueOf(token)))
    case BackgroundRule => p.(background := Some(ValueOf(token)))
    case FontSizeRule => p.(fontSize := Or(p.fontSize, Text.ParseInt(DropPx(ValueOf(token)))))
    case FontWeightRule =>
      var w := Text.ParseInt(ValueOf(token));
      if w.Some? then p.(bold := Some(w.value >= 600)) else p
    case BorderRule => BorderParts(p, Text.Words(token))
    case HoverTextRule => p.(hoverText := Some(ValueOf(token)))
    case HoverBackgroundRule => p.(hoverBackground := Some(ValueOf(token)))
    case NoRule => p
  }

  /** The loop over the tokens, from the fields found so far. */
  function Fold(p: StyleFields, tokens: seq<string>): StyleFields {
    if tokens == [] then p else Step(Fold(p, tokens[..|tokens| - 1]), tokens[|tokens| - 1])
  }

  /** What `_parse_style` returns. */
  function ParsedStyle(style: string): StyleFields {
    Fold(NoFields, Tokens(style))
  }

  /** The inner loop of `_parse_style`, over the whitespace-separated parts of a `border:` token. */
  method ReadBorder(p: StyleFields, token: string) returns (q: StyleFields)
    ensures q == BorderParts(p, Text.Words(token))
  {
    var parts := Text.Words(token);
    q := p;
    for i := 0 to |parts|
      invariant q == BorderParts(p, parts[..i])
    {
      assert parts[..i + 1][..i] == parts[..i];
      var part := parts[i];
      if EndsWithPx(part) {
        var w := Text.ParseInt(DropPx(part));
        if w.Some? {
          q := q.(borderWidth := Some(w.value));
        }
      } else if part != "border:" && part != "solid" {
        q := q.(borderColor := Some(part));
      }
    }
    assert parts[..|parts|] == parts;
  }

  /** `_parse_style`: the loop over the tokens filling the parsed dict. */
  method ParseStyle(style: string) returns (parsed: StyleFields)
    ensures parsed == ParsedStyle(style)
  {
    var tokens := Tokens(style);
    parsed := NoFields;
    for i := 0 to |tokens|
      invariant parsed == Fold(NoFields, tokens[..i])
    {
      assert tokens[..i + 1][..i] == tokens[..i];
      var token := tokens[i];
      assert Fold(NoFields, tokens[..i + 1]) == Step(parsed, token);
      if Text.StartsWith(token, "color:") && !Contains(token, "hover") {
        parsed := parsed.(color := Some(ValueOf(token)));
      } else if Text.StartsWith(token, "background-color:") && !Contains(token, "hover") {
        parsed := parsed.(background := Some(ValueOf(token)));
      } else if Text.StartsWith(token, "font-size:") {
        var n := Text.ParseInt(DropPx(ValueOf(token)));
        if n.Some? {
          parsed := parsed.(fontSize := n);
        }
      } else if Text.StartsWith(token, "font-weight:") {
        var w := Text.ParseInt(ValueOf(token));
        if w.Some? {
          parsed := parsed.(bold := Some(w.value >= 600));
        }
      } else if Text.StartsWith(token, "border:") {
        parsed := ReadBorder(parsed, token);
      } else if Text.StartsWith(token, "hover-color:") {
        parsed := parsed.(hoverText := Some(ValueOf(token)));
      } else if Text.StartsWith(token, "hover-background:") {
        parsed := parsed.(hoverBackground := Some(ValueOf(token)));
      }
    }
    assert tokens[..|tokens|] == tokens;
  }

  /** The fields of `q` that are set, over those of `p`: a later dict update wins. */
  function Over(p: StyleFields, q: StyleFields): StyleFields {
    StyleFields(Or(p.color, q.color), Or(p.background, q.background), Or(p.fontSize, q.fontSize),
                Or(p.bold, q.bold), Or(p.borderWidth, q.borderWidth), Or(p.borderColor, q.borderColor),
                Or(p.hoverText, q.hoverText), Or(p.hoverBackground, q.hoverBackground))
  }

  /** The last value given, if any. */
  function Last<T>(us: seq<Option<T>>): Option<T> {
    if us == [] then None else Or(Last(us[..|us| - 1]), us[|us| - 1])
  }

  /** Some value is given exactly when some entry holds one, and then it is the last entry that does. */
  lemma {:induction false} LastLaws<T>(us: seq<Option<T>>)
    ensures Last(us).Some? <==> exists k :: 0 <= k < |us| && us[k].Some?
    ensures Last(us).Some? ==> exists k :: 0 <= k < |us| && us[k] == Last(us) && forall j :: k < j < |us| ==> us[j].None?
  {
    if us != [] {
      var n := |us| - 1;
      LastLaws(us[..n]);
      assert forall k :: 0 <= k < n ==> us[..n][k] == us[k];
      if us[n].None? && Last(us[..n]).Some? {
        var k :| 0 <= k < n && us[..n][k] == Last(us[..n]) && forall j :: k < j < n ==> us[..n][j].None?;
        assert us[k] == Last(us);
      }
    }
  }

  /** The widths the parts of a `border:` token give, in order. */
  function Widths(parts: seq<string>): seq<Option<int>> {
    seq(|parts|, k requires 0 <= k < |parts| => WidthOf(parts[k]))
  }

  /** The colours the parts of a `border:` token give, in order. */
  function BorderColors(parts: seq<string>): seq<Option<string>> {
    seq(|parts|, k requires 0 <= k < |parts| => BorderColorOf(parts[k]))
  }

  /**
   * A `border:` token sets the width from its last `px` part that is an
   * integer and the colour from its last part that is not a `px` part,
   * `border:` or `solid`; it leaves every other field alone.
   */
  lemma {:induction false} BorderLaws(p: StyleFields, parts: seq<string>)
    ensures BorderParts(p, parts)
            == p.(borderWidth := Or(p.borderWidth, Last(Widths(parts))),
                  borderColor := Or(p.borderColor, Last(BorderColors(parts))))
  {
    if parts != [] {
      var n := |parts| - 1;
      BorderLaws(p, parts[..n]);
      assert Widths(parts)[..n] == Widths(parts[..n]);
      assert BorderColors(parts)[..n] == BorderColors(parts[..n]);
    }
  }

  /** A dict update by one token is the token's own fields laid over what was there. */
  lemma StepFrame(p: StyleFields, token: string)
    ensures Step(p, token) == Over(p, Step(NoFields, token))
  {
    if RuleOf(token) == BorderRule {
      BorderLaws(p, Text.Words(token));
      BorderLaws(NoFields, Text.Words(token));
    }
  }

  /** Whether a token sets `color`. */
  predicate IsColorToken(t: string) { Text.StartsWith(t, "color:") && !Contains(t, "hover") }

  /** Whether a token sets `background`. */
  predicate IsBackgroundToken(t: string) { Text.StartsWith(t, "background-color:") && !Contains(t, "hover") }

  /** Whether a token sets `font_size`: a `font-size:` token whose value is an integer once `px` is dropped. */
  predicate IsSizeToken(t: string) { Text.StartsWith(t, "font-size:") && Text.ParseInt(DropPx(ValueOf(t))).Some? }

  /** Whether a token sets `bold`: a `font-weight:` token whose value is an integer. */
  predicate IsWeightToken(t: string) { Text.StartsWith(t, "font-weight:") && Text.ParseInt(ValueOf(t)).Some? }

  /** A token with one of the later prefixes cannot start with an earlier one. */
  lemma RuleOfPrefixes(t: string)
    ensures IsBackgroundToken(t) ==> RuleOf(t) == BackgroundRule
    ensures Text.StartsWith(t, "font-size:") ==> RuleOf(t) == FontSizeRule
    ensures Text.StartsWith(t, "font-weight:") ==> RuleOf(t) == FontWeightRule
  {
    if IsBackgroundToken(t) {
      assert t[0] == t[..17][0] == 'b';
    }
    if Text.StartsWith(t, "font-size:") {
      assert t[0] == t[..10][0] == 'f' && t[5] == t[..10][5] == 's';
    }
    if Text.StartsWith(t, "font-weight:") {
      assert t[0] == t[..12][0] == 'f' && t[5] == t[..12][5] == 'w';
    }
  }

  /** The fields a single token sets on an empty dict. */
  lemma OwnFields(t: string)
    ensures Step(NoFields, t).color == if IsColorToken(t) then Some(ValueOf(t)) else None
    ensures Step(NoFields, t).background == if IsBackgroundToken(t) then Some(ValueOf(t)) else None
    ensures Step(NoFields, t).fontSize == if IsSizeToken(t) then Text.ParseInt(DropPx(ValueOf(t))) else None
    ensures Step(NoFields, t).bold == if IsWeightToken(t) then Some(Text.ParseInt(ValueOf(t)).value >= 600) else None
    ensures Step(NoFields, t).hoverText == if RuleOf(t) == HoverTextRule then Some(ValueOf(t)) else None
    ensures Step(NoFields, t).hoverBackground == if RuleOf(t) == HoverBackgroundRule then Some(ValueOf(t)) else None
  {
    RuleOfPrefixes(t);
    if RuleOf(t) == BorderRule {
      BorderLaws(NoFields, Text.Words(t));
    }
  }

  /** The colours the tokens give one by one. */
  function Colors(tokens: seq<string>): seq<Option<string>> {
    seq(|tokens|, k requires 0 <= k < |tokens| => if IsColorToken(tokens[k]) then Some(ValueOf(tokens[k])) else None)
  }

  /** The backgrounds the tokens give one by one. */
  function Backgrounds(tokens: seq<string>): seq<Option<string>> {
    seq(|tokens|, k requires 0 <= k < |tokens| => if IsBackgroundToken(tokens[k]) then Some(ValueOf(tokens[k])) else None)
  }

  /** The font sizes the tokens give one by one. */
  function Sizes(tokens: seq<string>): seq<Option<int>> {
    seq(|tokens|, k requires 0 <= k < |tokens| => if IsSizeToken(tokens[k]) then Text.ParseInt(DropPx(ValueOf(tokens[k]))) else None)
  }

  /** The boldness the tokens give one by one. */
  function Weights(tokens: seq<string>): seq<Option<bool>> {
    seq(|tokens|, k requires 0 <= k < |tokens| => if IsWeightToken(tokens[k]) then Some(Text.ParseInt(ValueOf(tokens[k])).value >= 600) else None)
  }

  /** The colour fields of the parsed dict hold the last value a token gives them. */
  lemma {:induction false} FoldColors(tokens: seq<string>)
    ensures Fold(NoFields, tokens).color == Last(Colors(tokens))
    ensures Fold(NoFields, tokens).background == Last(Backgrounds(tokens))
  {
    if tokens != [] {
      var n := |tokens| - 1;
      FoldColors(tokens[..n]);
      StepFrame(Fold(NoFields, tokens[..n]), tokens[n]);
      OwnFields(tokens[n]);
      assert Colors(tokens)[..n] == Colors(tokens[..n]);
      assert Backgrounds(tokens)[..n] == Backgrounds(tokens[..n]);
    }
  }

  /** The font fields of the parsed dict hold the last value a token gives them. */
  lemma {:induction false} FoldFonts(tokens: seq<string>)
    ensures Fold(NoFields, tokens).fontSize == Last(Sizes(tokens))
    ensures Fold(NoFields, tokens).bold == Last(Weights(tokens))
  {
    if tokens != [] {
      var n := |tokens| - 1;
      FoldFonts(tokens[..n]);
      StepFrame(Fold(NoFields, tokens[..n]), tokens[n]);
      OwnFields(tokens[n]);
      assert Sizes(tokens)[..n] == Sizes(tokens[..n]);
      assert Weights(tokens)[..n] == Weights(tokens[..n]);
    }
  }

  /**
   * `color` is set exactly when some token starts with `color:` and does
   * not contain `hover`, and then it holds the value of the last such token.
   */
  lemma ColorLaw(tokens: seq<string>)
    ensures Last(Colors(tokens)).Some? <==> exists k :: 0 <= k < |tokens| && IsColorToken(tokens[k])
    ensures Last(Colors(tokens)).Some? ==>
              exists k :: 0 <= k < |tokens| && IsColorToken(tokens[k]) && Last(Colors(tokens)).value == ValueOf(tokens[k])
                          && forall j :: k < j < |tokens| ==> !IsColorToken(tokens[j])
  {
    var vs := Colors(tokens);
    LastLaws(vs);
    if exists k :: 0 <= k < |tokens| && IsColorToken(tokens[k]) {
      var k :| 0 <= k < |tokens| && IsColorToken(tokens[k]);
      assert vs[k].Some?;
    }
    if Last(vs).Some? {
      var k :| 0 <= k < |vs| && vs[k] == Last(vs) && forall j :: k < j < |vs| ==> vs[j].None?;
      assert IsColorToken(tokens[k]) && Last(vs).value == ValueOf(tokens[k]);
      forall j | k < j < |tokens|
        ensures !IsColorToken(tokens[j])
      {
        assert vs[j].None?;
      }
    }
  }

  /**
   * `background` is set exactly when some token starts with
   * `background-color:` and does not contain `hover`, and then it holds the
   * value of the last such token.
   */
  lemma BackgroundLaw(tokens: seq<string>)
    ensures Last(Backgrounds(tokens)).Some? <==> exists k :: 0 <= k < |tokens| && IsBackgroundToken(tokens[k])
    ensures Last(Backgrounds(tokens)).Some? ==>
              exists k :: 0 <= k < |tokens| && IsBackgroundToken(tokens[k])
                          && Last(Backgrounds(tokens)).value == ValueOf(tokens[k])
                          && forall j :: k < j < |tokens| ==> !IsBackgroundToken(tokens[j])
  {
    var vs := Backgrounds(tokens);
    LastLaws(vs);
    if exists k :: 0 <= k < |tokens| && IsBackgroundToken(tokens[k]) {
      var k :| 0 <= k < |tokens| && IsBackgroundToken(tokens[k]);
      assert vs[k].Some?;
    }
    if Last(vs).Some? {
      var k :| 0 <= k < |vs| && vs[k] == Last(vs) && forall j :: k < j < |vs| ==> vs[j].None?;
      assert IsBackgroundToken(tokens[k]) && Last(vs).value == ValueOf(tokens[k]);
      forall j | k < j < |tokens|
        ensures !IsBackgroundToken(tokens[j])
      {
        assert vs[j].None?;
      }
    }
  }

  /**
   * `LastLaws` read on tokens: when exactly the marked tokens give a value,
   * some value is given iff some token is marked, and it is that of the last
   * marked token.
   */
  lemma TokenLast<U>(tokens: seq<string>, vs: seq<Option<U>>, marked: string -> bool)
    requires |vs| == |tokens| && forall k :: 0 <= k < |tokens| ==> (vs[k].Some? <==> marked(tokens[k]))
    ensures Last(vs).Some? <==> exists k :: 0 <= k < |tokens| && marked(tokens[k])
    ensures Last(vs).Some? ==>
              exists k :: 0 <= k < |tokens| && marked(tokens[k]) && vs[k] == Last(vs)
                          && forall j :: k < j < |tokens| ==> !marked(tokens[j])
  {
    LastLaws(vs);
    if Last(vs).Some? {
      var k :| 0 <= k < |vs| && vs[k] == Last(vs) && forall j :: k < j < |vs| ==> vs[j].None?;
      assert marked(tokens[k]);
    } else {
      forall k | 0 <= k < |tokens|
        ensures !marked(tokens[k])
      {
        assert vs[k].None?;
      }
    }
  }

  /**
   * `font_size` is set exactly when some `font-size:` token reads as an
   * integer once `px` is dropped (the others are ignored), and then it is
   * the integer of the last such token.
   */
  lemma FontSizeLaw(tokens: seq<string>)
    ensures Last(Sizes(tokens)).Some? <==> exists k :: 0 <= k < |tokens| && IsSizeToken(tokens[k])
    ensures Last(Sizes(tokens)).Some? ==>
              exists k :: 0 <= k < |tokens| && IsSizeToken(tokens[k])
                          && Last(Sizes(tokens)) == Text.ParseInt(DropPx(ValueOf(tokens[k])))
                          && forall j :: k < j < |tokens| ==> !IsSizeToken(tokens[j])
  {
    TokenLast(tokens, Sizes(tokens), IsSizeToken);
    if Last(Sizes(tokens)).Some? {
      var k :| 0 <= k < |tokens| && IsSizeToken(tokens[k]) && Sizes(tokens)[k] == Last(Sizes(tokens))
               && forall j :: k < j < |tokens| ==> !IsSizeToken(tokens[j]);
      assert Sizes(tokens)[k] == Text.ParseInt(DropPx(ValueOf(tokens[k])));
    }
  }


  /**
   * `bold` is set exactly when some `font-weight:` token reads as an
   * integer, and then it says whether the last such weight is at least 600.
   */
  lemma BoldLaw(tokens: seq<string>)
    ensures Last(Weights(tokens)).Some? <==> exists k :: 0 <= k < |tokens| && IsWeightToken(tokens[k])
    ensures Last(Weights(tokens)).Some? ==>
              exists k :: 0 <= k < |tokens| && IsWeightToken(tokens[k])
                          && (Last(Weights(tokens)).value <==> Text.ParseInt(ValueOf(tokens[k])).value >= 600)
                          && forall j :: k < j < |tokens| ==> !IsWeightToken(tokens[j])
  {
    TokenLast(tokens, Weights(tokens), IsWeightToken);
    if Last(Weights(tokens)).Some? {
      var k :| 0 <= k < |tokens| && IsWeightToken(tokens[k]) && Weights(tokens)[k] == Last(Weights(tokens))
               && forall j :: k < j < |tokens| ==> !IsWeightToken(tokens[j]);
      assert Weights(tokens)[k] == Some(Text.ParseInt(ValueOf(tokens[k])).value >= 600);
    }
  }


  /** A font-size or font-weight token whose value is not an integer changes nothing. */
  lemma IgnoredTokens(p: StyleFields, t: string)
    ensures Text.StartsWith(t, "font-size:") && Text.ParseInt(DropPx(ValueOf(t))).None? ==> Step(p, t) == p
    ensures Text.StartsWith(t, "font-weight:") && Text.ParseInt(ValueOf(t)).None? ==> Step(p, t) == p
  {
    RuleOfPrefixes(t);
  }

  /** The widget values `_build_style` reads: line edits as typed, spin boxes and the check box. */
  datatype Widgets = Widgets(
    color: string,
    background: string,
    fontSize: int,
    bold: bool,
    borderWidth: int,
    borderColor: string,
    hoverText: string,
    hoverBackground: string)

  /** The border rule for a positive width and a colour. */
  function BorderText(width: nat, color: string): string {
    "border: " + Text.NatToString(width) + "px solid " + color + ";"
  }

  /** The colour of the border rule: the stripped colour edit, or `#000` when it is blank. */
  function BorderColorText(w: Widgets): string {
    if Text.Strip(w.borderColor) != "" then Text.Strip(w.borderColor) else "#000"
  }

  /** The base rules, in the order `_build_style` appends them. */
  function Rules(w: Widgets): seq<string> {
    var c := Text.Strip(w.color);
    var b := Text.Strip(w.background);
    (if c != "" then ["color: " + c + ";"] else [])
    + (if b != "" then ["background-color: " + b + ";"] else [])
    + (if w.fontSize > 0 then ["font-size: " + Text.NatToString(w.fontSize) + "px;"] else [])
    + (if w.bold then ["font-weight: 600;"] else [])
    + (if w.borderWidth > 0 then [BorderText(w.borderWidth, BorderColorText(w))] else [])
  }

  /** The rules of the hover block. */
  function HoverRules(w: Widgets): seq<string> {
    var h := Text.Strip(w.hoverText);
    var hb := Text.Strip(w.hoverBackground);
    (if h != "" then ["color: " + h + ";"] else [])
    + (if hb != "" then ["background-color: " + hb + ";"] else [])
  }

  /** The hover block, with the `hover-color:`/`hover-background:` hints the parser reads back. */
  function HoverBlock(w: Widgets): string {
    "QPushButton:hover { " + Text.Join(HoverRules(w), " ") + " hover-color:" + Text.Strip(w.hoverText)
    + "; hover-background:" + Text.Strip(w.hoverBackground) + "; }"
  }

  /** No widget asks for a rule. */
  predicate NothingSet(w: Widgets) {
    Text.Strip(w.color) == "" && Text.Strip(w.background) == "" && w.fontSize <= 0 && !w.bold
    && w.borderWidth <= 0 && Text.Strip(w.hoverText) == "" && Text.Strip(w.hoverBackground) == ""
  }

  /**
   * `_build_style` with the widget values and the default style passed in:
   * no style at all when no widget asks for a rule, whatever the default
   * style; otherwise the stripped default, the base rules and the hover
   * block on separate lines.
   */
  function BuildStyle(base: Option<string>, w: Widgets): (r: Option<string>)
    ensures r.None? <==> NothingSet(w)
  {
    var rules := Rules(w);
    var hover := HoverRules(w);
    var b := Text.Strip(if base.Some? then base.value else "");
    if rules == [] && hover == [] then None
    else
      var parts := (if b != "" then [b] else []) + (if rules != [] then [Text.Join(rules, " ")] else [])
                   + (if hover != [] then [HoverBlock(w)] else []);
      Some(Text.Strip(Text.Join(parts, "\n")))
  }

  /** The rules written are exactly those whose widget asks for them. */
  lemma RulesMembers(w: Widgets)
    ensures forall x :: x in Rules(w) <==>
              (Text.Strip(w.color) != "" && x == "color: " + Text.Strip(w.color) + ";")
              || (Text.Strip(w.background) != "" && x == "background-color: " + Text.Strip(w.background) + ";")
              || (w.fontSize > 0 && x == "font-size: " + Text.NatToString(w.fontSize) + "px;")
              || (w.bold && x == "font-weight: 600;")
              || (w.borderWidth > 0 && x == BorderText(w.borderWidth, BorderColorText(w)))
  {
  }

  /** A border rule is written exactly when the width is positive, with the colour edit or `#000`. */
  lemma BorderRuleLaw(w: Widgets)
    ensures (exists x :: x in Rules(w) && Text.StartsWith(x, "border:")) <==> w.borderWidth > 0
    ensures w.borderWidth > 0 ==> BorderText(w.borderWidth, BorderColorText(w)) in Rules(w)
  {
    RulesMembers(w);
    if w.borderWidth > 0 {
      var ro := BorderText(w.borderWidth, BorderColorText(w));
      assert ro[..7] == "border:";
      assert ro in Rules(w) && Text.StartsWith(ro, "border:");
    }
    forall x | x in Rules(w) && Text.StartsWith(x, "border:")
      ensures w.borderWidth > 0
    {
      assert x[0] == x[..7][0] == 'b' && x[1] == x[..7][1] == 'o';
    }
  }

  /** The bold rule is written exactly when the box is checked, always as weight 600. */
  lemma BoldRuleLaw(w: Widgets)
    ensures "font-weight: 600;" in Rules(w) <==> w.bold
  {
    RulesMembers(w);
    var x := "font-weight: 600;";
    assert x[0] == 'f' && x[5] == 'w';
  }

  /** A font-size rule is written exactly when the size is positive. */
  lemma SizeRuleLaw(w: Widgets)
    ensures (exists x :: x in Rules(w) && Text.StartsWith(x, "font-size:")) <==> w.fontSize > 0
  {
    RulesMembers(w);
    if w.fontSize > 0 {
      var rz := "font-size: " + Text.NatToString(w.fontSize) + "px;";
      assert rz[..10] == "font-size:";
      assert rz in Rules(w) && Text.StartsWith(rz, "font-size:");
    }
    forall x | x in Rules(w) && Text.StartsWith(x, "font-size:")
      ensures w.fontSize > 0
    {
      assert x[0] == x[..10][0] == 'f' && x[5] == x[..10][5] == 's';
    }
  }
}
