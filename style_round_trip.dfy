/**
 * Reading back a style the layout designer wrote. The designer fills its
 * widgets from `_parse_style` of the saved style, so parsing what
 * `_build_style` wrote should give the widget values back. With a hover
 * colour set it does not: once braces are separators, the hover block's
 * own `color:` rule is a token without `hover` in it and overwrites the
 * base colour. A parser that skips colour rules inside `{ }` blocks reads
 * the base and hover colours back as written.
 */
module StyleRoundTrip {
  import opened Wrappers
  import Text
  import opened LayoutDesigner

  /** Replacing a character distributes over concatenation. */
  lemma ReplaceAppend(a: string, b: string, x: char, y: char)
    ensures Text.ReplaceChar(a + b, x, y) == Text.ReplaceChar(a, x, y) + Text.ReplaceChar(b, x, y)
  {
    var l := Text.ReplaceChar(a + b, x, y);
    var r := Text.ReplaceChar(a, x, y) + Text.ReplaceChar(b, x, y);
    assert forall i :: 0 <= i < |l| ==> l[i] == r[i];
  }

  /** Replacing a character that does not occur changes nothing. */
  lemma ReplaceAbsent(a: string, x: char, y: char)
    requires x !in a
    ensures Text.ReplaceChar(a, x, y) == a
  {
    assert forall i :: 0 <= i < |a| ==> Text.ReplaceChar(a, x, y)[i] == a[i];
  }

  /** Only whitespace. */
  predicate Blank(s: string) { forall k :: 0 <= k < |s| ==> Text.IsSpace(s[k]) }

  /** Text with no whitespace at either end. */
  predicate Trimmed(x: string) { x != [] && !Text.IsSpace(x[0]) && !Text.IsSpace(x[|x| - 1]) }

  /** Right trimming drops trailing whitespace down to the last other character. */
  lemma {:induction false} TrimRightBlank(x: string, post: string)
    requires Blank(post) && Trimmed(x)
    ensures Text.TrimRight(x + post) == x
  {
    if post != [] {
      var n := |post| - 1;
      assert (x + post)[..|x + post| - 1] == x + post[..n];
      TrimRightBlank(x, post[..n]);
    }
  }

  /** Stripping text padded with whitespace gives the text. */
  lemma StripPadded(pre: string, x: string, post: string)
    requires Blank(pre) && Blank(post) && Trimmed(x)
    ensures Text.Strip(pre + x + post) == x
  {
    TrimLeftPadded(pre, x, post);
    TrimRightBlank(x, post);
  }

  /** Left trimming of padded text keeps the text and what follows. */
  lemma {:induction false} TrimLeftPadded(pre: string, x: string, post: string)
    requires Blank(pre) && Trimmed(x)
    ensures Text.TrimLeft(pre + x + post) == x + post
  {
    if pre != [] {
      assert (pre + x + post)[1..] == pre[1..] + x + post;
      TrimLeftPadded(pre[1..], x, post);
    } else {
      assert pre + x + post == x + post;
    }
  }

  /** The first occurrence of a character found in a prefix is the one in the prefix. */
  lemma IndexOfPrefix(pre: string, s: string, c: char)
    requires c in pre
    ensures Text.IndexOf(pre + s, c) == Text.IndexOf(pre, c)
    decreases |pre|
  {
    if pre[0] != c {
      assert (pre + s)[1..] == pre[1..] + s;
      IndexOfPrefix(pre[1..], s, c);
    }
  }

  /** A word whose first letter is not in the prefix occurs in the text exactly when it occurs after the prefix. */
  lemma {:induction false} ContainsAfter(pre: string, s: string, w: string)
    requires w != [] && w[0] !in pre
    ensures Contains(pre + s, w) <==> Contains(s, w)
    decreases |pre|
  {
    if pre != [] {
      assert (pre + s)[0] == pre[0];
      assert (pre + s)[1..] == pre[1..] + s;
      ContainsAfter(pre[1..], s, w);
    } else {
      assert pre + s == s;
    }
  }

  /** `style.replace("{", ";").replace("}", ";")` distributes over concatenation. */
  lemma BracesAppend(a: string, b: string)
    ensures Braces(a + b) == Braces(a) + Braces(b)
  {
    ReplaceAppend(a, b, '{', ';');
    ReplaceAppend(Text.ReplaceChar(a, '{', ';'), Text.ReplaceChar(b, '{', ';'), '}', ';');
  }

  /** Text without braces is left alone. */
  lemma BracesAbsent(a: string)
    requires '{' !in a && '}' !in a
    ensures Braces(a) == a
  {
    ReplaceAbsent(a, '{', ';');
    ReplaceAbsent(a, '}', ';');
  }

  /** A colour the designer can write back unchanged: trimmed, without separators, without the word `hover`. */
  predicate Plain(v: string) {
    Trimmed(v) && ';' !in v && '{' !in v && '}' !in v && !Contains(v, "hover")
  }

  /** Widgets with only a base text colour and a hover text colour set. */
  function ColorWidgets(c: string, h: string): Widgets {
    Widgets(c, "", 0, false, 0, "", h, "")
  }

  /** The base rule of the built style and the hover selector, before the `{`. */
  function Outer(c: string): string {
    ("color: " + c + ";") + "\n" + "QPushButton:hover "
  }

  /** The inside of the hover block of the built style. */
  function Inner(h: string): string {
    " " + ("color: " + h + ";") + " hover-color:" + h + ";" + " hover-background:" + ";" + " "
  }

  /** The rules `_build_style` collects for a base colour and a hover text colour. */
  lemma ColorRules(c: string, h: string)
    requires Plain(c) && Plain(h)
    ensures Rules(ColorWidgets(c, h)) == ["color: " + c + ";"]
    ensures HoverRules(ColorWidgets(c, h)) == ["color: " + h + ";"]
    ensures HoverBlock(ColorWidgets(c, h)) == "QPushButton:hover { " + ("color: " + h + ";") + " hover-color:" + h + "; hover-background:" + "" + "; }"
  {
    Text.StripNoSpace(c);
    Text.StripNoSpace(h);
    assert Text.TrimLeft("") == "" && Text.TrimRight("") == "";
  }

  /** Joining two pieces puts the separator between them. */
  lemma JoinTwo(x: string, y: string, sep: string)
    ensures Text.Join([x, y], sep) == x + sep + y
  {
    assert [x, y][1..] == [y];
  }

  /** Regrouping the pieces of the built text around its braces. */
  lemma Regroup(x: string, n: string, p1: string, p0: string, lb: string, sp: string, y: string, hc: string, h: string,
                q1: string, e: string, q2: string, semi: string, a4: string, a5: string, rb: string)
    requires p1 == p0 + lb + sp
    requires q1 + e + q2 == semi + a4 + semi + a5 + rb
    ensures x + n + (p1 + y + hc + h + q1 + e + q2) == (x + n + p0) + lb + (sp + y + hc + h + semi + a4 + semi + a5) + rb
  {
    assert p1 + y + hc + h + q1 + e + q2 == p1 + y + hc + h + (q1 + e + q2);
  }

  /** The selector text before and after its brace. */
  lemma SelectorBrace()
    ensures "QPushButton:hover { " == "QPushButton:hover " + "{" + " "
  {
  }

  /** The tail of the hover block around its separators. */
  lemma BlockTail()
    ensures "; hover-background:" + "" + "; }" == ";" + " hover-background:" + ";" + " " + "}"
  {
  }

  /** What `_build_style` writes for a base colour and a hover text colour. */
  lemma BuiltText(c: string, h: string)
    requires Plain(c) && Plain(h)
    ensures BuildStyle(None, ColorWidgets(c, h)) == Some(Outer(c) + "{" + Inner(h) + "}")
  {
    var w := ColorWidgets(c, h);
    ColorRules(c, h);
    assert Text.TrimLeft("") == "" && Text.TrimRight("") == "";
    var rule := "color: " + c + ";";
    var hb := HoverBlock(w);
    assert Text.Join([rule], " ") == rule;
    var j := Text.Join([rule, hb], "\n");
    JoinTwo(rule, hb, "\n");
    assert j[0] == 'c' && j[|j| - 1] == '}';
    Text.StripNoSpace(j);
    SelectorBrace();
    BlockTail();
    Regroup(rule, "\n", "QPushButton:hover { ", "QPushButton:hover ", "{", " ", "color: " + h + ";", " hover-color:", h,
            "; hover-background:", "", "; }", ";", " hover-background:", " ", "}");
  }

  /** The base colour rule without its `;`. */
  function BaseToken(c: string): string { "color: " + c }

  /** The selector piece between the base rule and the hover block. */
  const Selector: string := "\n" + "QPushButton:hover" + " "

  /** The hover block's colour rule, with the space before it. */
  function HoverColorPiece(h: string): string { " " + ("color: " + h) }

  /** The `hover-color:` piece, with the space before it. */
  function HoverTextPiece(h: string): string { " " + ("hover-color:" + h) }

  /** The `hover-background:` piece for an empty hover background. */
  const HoverBackgroundPiece: string := " " + "hover-background:"

  /** A piece followed by `;` and the rest of the text. */
  function Semi(a: string, rest: string): string { a + ";" + rest }

  /** Regrouping the braced text into its `;`-separated pieces. */
  lemma RegroupPieces(p0: string, nl: string, sel: string, sp: string, selsp: string, x2: string,
                      hc: string, hc1: string, h: string, hbg: string, hbg1: string)
    requires selsp == sel + sp && hc1 == sp + hc && hbg1 == sp + hbg
    ensures (p0 + ";") + nl + selsp + ";" + (sp + (x2 + ";") + hc1 + h + ";" + hbg1 + ";" + sp) + ";"
         == Semi(p0, Semi(nl + sel + sp, Semi(sp + x2, Semi(sp + (hc + h), Semi(sp + hbg, Semi(sp, ""))))))
  {
  }

  /** The literal pieces of the built text, split at their spaces. */
  lemma LiteralPieces()
    ensures "QPushButton:hover " == "QPushButton:hover" + " "
    ensures " hover-color:" == " " + "hover-color:"
    ensures " hover-background:" == " " + "hover-background:"
  {
  }

  /** A brace-free text and a brace-free block, joined by the braces written around the block. */
  lemma BracesAround(o: string, i: string)
    requires '{' !in o && '}' !in o && '{' !in i && '}' !in i
    ensures Braces(o + "{" + i + "}") == o + ";" + i + ";"
  {
    BracesAppend(o + "{" + i, "}");
    BracesAppend(o + "{", i);
    BracesAppend(o, "{");
    BracesAbsent(o);
    BracesAbsent(i);
    assert Braces("{")[0] == ';' && Braces("}")[0] == ';';
  }

  /** The base rule and the selector hold no braces. */
  lemma OuterNoBraces(c: string)
    requires Plain(c)
    ensures '{' !in Outer(c) && '}' !in Outer(c)
  {
  }

  /** The inside of the hover block holds no braces. */
  lemma InnerNoBraces(h: string)
    requires Plain(h)
    ensures '{' !in Inner(h) && '}' !in Inner(h)
  {
  }

  /** Braces of the built text become `;`, so the text is its pieces, each followed by `;`. */
  lemma BracedPieces(c: string, h: string)
    requires Plain(c) && Plain(h)
    ensures Braces(Outer(c) + "{" + Inner(h) + "}")
         == Semi(BaseToken(c), Semi(Selector, Semi(HoverColorPiece(h), Semi(HoverTextPiece(h),
              Semi(HoverBackgroundPiece, Semi(" ", ""))))))
  {
    OuterNoBraces(c);
    InnerNoBraces(h);
    BracesAround(Outer(c), Inner(h));
    LiteralPieces();
    RegroupPieces("color: " + c, "\n", "QPushButton:hover", " ", "QPushButton:hover ", "color: " + h,
                  "hover-color:", " hover-color:", h, "hover-background:", " hover-background:");
  }

  /** Splitting at the `;` after a `;`-free piece. */
  lemma SplitSemi(a: string, rest: string)
    requires ';' !in a
    ensures Text.Split(Semi(a, rest), ';') == [a] + Text.Split(rest, ';')
  {
    Text.SplitFirst(a, rest, ';');
  }

  /** Six `;`-free pieces, each followed by `;`, split back into the pieces and the empty tail. */
  lemma SplitPieces(a0: string, a1: string, a2: string, a3: string, a4: string, a5: string)
    requires ';' !in a0 && ';' !in a1 && ';' !in a2 && ';' !in a3 && ';' !in a4 && ';' !in a5
    ensures Text.Split(Semi(a0, Semi(a1, Semi(a2, Semi(a3, Semi(a4, Semi(a5, "")))))), ';')
         == [a0] + ([a1] + ([a2] + ([a3] + ([a4] + ([a5] + [""])))))
  {
    Text.SplitWhole("", ';');
    SplitSemi(a5, "");
    SplitSemi(a4, Semi(a5, ""));
    SplitSemi(a3, Semi(a4, Semi(a5, "")));
    SplitSemi(a2, Semi(a3, Semi(a4, Semi(a5, ""))));
    SplitSemi(a1, Semi(a2, Semi(a3, Semi(a4, Semi(a5, "")))));
    SplitSemi(a0, Semi(a1, Semi(a2, Semi(a3, Semi(a4, Semi(a5, ""))))));
  }

  /** Stripping one piece and dropping it when blank, ahead of the rest. */
  lemma CleanCons(x: string, rest: seq<string>)
    ensures Clean([x] + rest) == (if Text.Strip(x) == "" then [] else [Text.Strip(x)]) + Clean(rest)
  {
    assert ([x] + rest)[0] == x && ([x] + rest)[1..] == rest;
  }

  /** The pieces of the built text, stripped. */
  lemma StripPieces(c: string, h: string)
    requires Plain(c) && Plain(h)
    ensures Text.Strip(BaseToken(c)) == BaseToken(c)
    ensures Text.Strip(Selector) == "QPushButton:hover"
    ensures Text.Strip(HoverColorPiece(h)) == "color: " + h
    ensures Text.Strip(HoverTextPiece(h)) == "hover-color:" + h
    ensures Text.Strip(HoverBackgroundPiece) == "hover-background:"
    ensures Text.Strip(" ") == "" && Text.Strip("") == ""
  {
    Text.StripNoSpace(BaseToken(c));
    StripPadded("\n", "QPushButton:hover", " ");
    assert " " + ("color: " + h) == " " + ("color: " + h) + "";
    StripPadded(" ", "color: " + h, "");
    assert " " + ("hover-color:" + h) == " " + ("hover-color:" + h) + "";
    StripPadded(" ", "hover-color:" + h, "");
    assert HoverBackgroundPiece == " " + "hover-background:" + "";
    StripPadded(" ", "hover-background:", "");
    assert Text.TrimLeft(" ") == "" && Text.TrimLeft("") == "";
  }

  /** The tokens `_parse_style` finds in the built text, in order. */
  function BuiltTokens(c: string, h: string): seq<string> {
    [BaseToken(c)] + (["QPushButton:hover"] + (["color: " + h] + (["hover-color:" + h] + ["hover-background:"])))
  }

  /** Six pieces, the last one blank, cleaned: the five stripped pieces remain. */
  lemma CleanPieces(a0: string, a1: string, a2: string, a3: string, a4: string, a5: string,
                    t0: string, t1: string, t2: string, t3: string, t4: string)
    requires Text.Strip(a0) == t0 && Text.Strip(a1) == t1 && Text.Strip(a2) == t2
    requires Text.Strip(a3) == t3 && Text.Strip(a4) == t4 && Text.Strip(a5) == "" && Text.Strip("") == ""
    requires t0 != "" && t1 != "" && t2 != "" && t3 != "" && t4 != ""
    ensures Clean([a0] + ([a1] + ([a2] + ([a3] + ([a4] + ([a5] + [""]))))))
         == [t0] + ([t1] + ([t2] + ([t3] + [t4])))
  {
    CleanCons("", []);
    CleanCons(a5, [""]);
    CleanCons(a4, [a5] + [""]);
    CleanCons(a3, [a4] + ([a5] + [""]));
    CleanCons(a2, [a3] + ([a4] + ([a5] + [""])));
    CleanCons(a1, [a2] + ([a3] + ([a4] + ([a5] + [""]))));
    CleanCons(a0, [a1] + ([a2] + ([a3] + ([a4] + ([a5] + [""])))));
  }

  /** `_parse_style` of the built text sees the base rule, the selector and the three rules of the hover block. */
  lemma TokensOfBuilt(c: string, h: string)
    requires Plain(c) && Plain(h)
    ensures Tokens(Outer(c) + "{" + Inner(h) + "}") == BuiltTokens(c, h)
  {
    BracedPieces(c, h);
    assert ';' !in Selector && ';' !in HoverBackgroundPiece;
    SplitPieces(BaseToken(c), Selector, HoverColorPiece(h), HoverTextPiece(h), HoverBackgroundPiece, " ");
    StripPieces(c, h);
    CleanPieces(BaseToken(c), Selector, HoverColorPiece(h), HoverTextPiece(h), HoverBackgroundPiece, " ",
                BaseToken(c), "QPushButton:hover", "color: " + h, "hover-color:" + h, "hover-background:");
  }

  /** A `color:` rule the designer wrote: a colour rule whose value is the colour. */
  lemma ColorToken(v: string)
    requires Plain(v)
    ensures RuleOf("color: " + v) == ColorRule && ValueOf("color: " + v) == v
  {
    var t := "color: " + v;
    assert t[..6] == "color:";
    ContainsAfter("color: ", v, "hover");
    IndexOfPrefix("color: ", v, ':');
    assert Text.IndexOf("color: ", ':') == 5;
    assert t[6..] == " " + v + "";
    StripPadded(" ", v, "");
  }

  /** The first occurrence of a character that a prefix lacks is right after the prefix. */
  lemma {:induction false} IndexOfFirst(a: string, b: string, c: char)
    requires c !in a
    ensures Text.IndexOf(a + [c] + b, c) == |a|
    decreases |a|
  {
    if a != [] {
      assert (a + [c] + b)[0] == a[0];
      assert (a + [c] + b)[1..] == a[1..] + [c] + b;
      IndexOfFirst(a[1..], b, c);
    }
  }

  /** A text does not start with a word whose character at `k` it does not share. */
  lemma NotPrefix(t: string, w: string, k: nat)
    requires k < |t| && k < |w| && t[k] != w[k]
    ensures !Text.StartsWith(t, w)
  {
    if |w| <= |t| {
      assert t[..|w|][k] == t[k];
    }
  }

  /** A token starting with `hover-`, which no rule before `hover-color:` starts with. */
  lemma HoverPrefixed(t: string)
    requires |t| > 6 && t[0] == 'h'
    ensures !Text.StartsWith(t, "color:") && !Text.StartsWith(t, "background-color:")
    ensures !Text.StartsWith(t, "font-size:") && !Text.StartsWith(t, "font-weight:") && !Text.StartsWith(t, "border:")
  {
    NotPrefix(t, "color:", 0);
    NotPrefix(t, "background-color:", 0);
    NotPrefix(t, "font-size:", 0);
    NotPrefix(t, "font-weight:", 0);
    NotPrefix(t, "border:", 0);
  }

  /** A `hover-color:` rule the designer wrote: a hover text rule whose value is the colour. */
  lemma HoverTextToken(v: string)
    requires Plain(v)
    ensures RuleOf("hover-color:" + v) == HoverTextRule && ValueOf("hover-color:" + v) == v
  {
    var t := "hover-color:" + v;
    assert t[..12] == "hover-color:";
    assert t[0] == 'h';
    HoverPrefixed(t);
    assert t == "hover-color" + [':'] + v;
    IndexOfFirst("hover-color", v, ':');
    assert t[12..] == v;
    Text.StripNoSpace(v);
  }

  /** The selector sets nothing. */
  lemma SelectorToken()
    ensures RuleOf("QPushButton:hover") == NoRule
  {
    var t := "QPushButton:hover";
    NotPrefix(t, "color:", 0);
    NotPrefix(t, "background-color:", 0);
    NotPrefix(t, "font-size:", 0);
    NotPrefix(t, "font-weight:", 0);
    NotPrefix(t, "border:", 0);
    NotPrefix(t, "hover-color:", 0);
    NotPrefix(t, "hover-background:", 0);
  }

  /** An empty `hover-background:` rule sets an empty hover background. */
  lemma HoverBackgroundToken()
    ensures RuleOf("hover-background:") == HoverBackgroundRule && ValueOf("hover-background:") == ""
  {
    var t := "hover-background:";
    HoverPrefixed(t);
    NotPrefix(t, "hover-color:", 6);
    assert t[..17] == "hover-background:";
    assert t == "hover-background" + [':'] + "";
    IndexOfFirst("hover-background", "", ':');
    assert t[17..] == "";
    assert Text.TrimLeft("") == "" && Text.TrimRight("") == "";
  }

  /** The loop over two runs of tokens is the loop over the second from where the first ended. */
  lemma {:induction false} FoldAppend(p: StyleFields, a: seq<string>, b: seq<string>)
    ensures Fold(p, a + b) == Fold(Fold(p, a), b)
    decreases |b|
  {
    if b == [] {
      assert a + b == a;
    } else {
      var n := |b| - 1;
      assert (a + b)[..|a + b| - 1] == a + b[..n] && (a + b)[|a + b| - 1] == b[n];
      FoldAppend(p, a, b[..n]);
    }
  }

  /** The loop over a first token and the rest. */
  lemma FoldCons(p: StyleFields, t: string, rest: seq<string>)
    ensures Fold(p, [t] + rest) == Fold(Step(p, t), rest)
  {
    FoldAppend(p, [t], rest);
    assert [t][..0] == [];
  }

  /**
   * The fields `_parse_style` reads back from the style `_build_style` wrote
   * for a base colour and a hover text colour: the base colour is the hover
   * block's `color:`.
   */
  lemma ParsedBuilt(c: string, h: string)
    requires Plain(c) && Plain(h)
    ensures ParsedStyle(Outer(c) + "{" + Inner(h) + "}")
         == NoFields.(color := Some(h), hoverText := Some(h), hoverBackground := Some(""))
  {
    TokensOfBuilt(c, h);
    ColorToken(c);
    ColorToken(h);
    HoverTextToken(h);
    SelectorToken();
    HoverBackgroundToken();
    var p0 := Step(NoFields, BaseToken(c));
    var p1 := Step(p0, "QPushButton:hover");
    var p2 := Step(p1, "color: " + h);
    var p3 := Step(p2, "hover-color:" + h);
    FoldCons(NoFields, BaseToken(c), ["QPushButton:hover"] + (["color: " + h] + (["hover-color:" + h] + ["hover-background:"])));
    FoldCons(p0, "QPushButton:hover", ["color: " + h] + (["hover-color:" + h] + ["hover-background:"]));
    FoldCons(p1, "color: " + h, ["hover-color:" + h] + ["hover-background:"]);
    FoldCons(p2, "hover-color:" + h, ["hover-background:"]);
    FoldCons(p3, "hover-background:", []);
  }

  /**
   * As written, reading back a saved style with a hover colour loses the
   * base colour: the colour edit is filled with the hover colour.
   */
  lemma HoverColorOverwritesBase(c: string, h: string)
    requires Plain(c) && Plain(h)
    ensures BuildStyle(None, ColorWidgets(c, h)).Some?
    ensures ParsedStyle(BuildStyle(None, ColorWidgets(c, h)).value).color == Some(h)
    ensures ParsedStyle(BuildStyle(None, ColorWidgets(c, h)).value).hoverText == Some(h)
  {
    BuiltText(c, h);
    ParsedBuilt(c, h);
  }

  /** With `red` as base and `blue` as hover colour, the designer reads `blue` back as the base colour. */
  lemma RedBecomesBlue()
    ensures BuildStyle(None, ColorWidgets("red", "blue")).Some?
    ensures ParsedStyle(BuildStyle(None, ColorWidgets("red", "blue")).value).color != Some("red")
  {
    assert Plain("red") && Plain("blue");
    HoverColorOverwritesBase("red", "blue");
  }

  // The corrected reading: a style is split into the text outside `{ }`
  // blocks and the text inside them. Rules outside are read as
  // `_parse_style` reads them; inside a block the `color:` and
  // `background-color:` rules belong to the hover state and are skipped, so
  // only the `hover-color:` and `hover-background:` markers the designer
  // writes there set the hover fields.

  /** The text outside and inside `{ }` blocks, alternating, starting outside. */
  function Blocks(style: string): (bs: seq<string>)
    ensures |bs| >= 1
  {
    Text.Split(Text.ReplaceChar(style, '}', '{'), '{')
  }

  /** The non-blank stripped rules of one block. */
  function BlockTokens(block: string): seq<string> {
    Clean(Text.Split(block, ';'))
  }

  /** One token inside a block: colour and background rules there are the hover state's. */
  function InnerStep(p: StyleFields, token: string): StyleFields {
    if RuleOf(token) == ColorRule || RuleOf(token) == BackgroundRule then p else Step(p, token)
  }

  /** The loop over the tokens of a block. */
  function InnerFold(p: StyleFields, tokens: seq<string>): StyleFields {
    if tokens == [] then p else InnerStep(InnerFold(p, tokens[..|tokens| - 1]), tokens[|tokens| - 1])
  }

  /** The blocks in order, outside ones read as `_parse_style` does and inside ones by `InnerFold`. */
  function ScopedFold(p: StyleFields, blocks: seq<string>, inside: bool): StyleFields
    decreases |blocks|
  {
    if blocks == [] then p
    else
      var q := if inside then InnerFold(p, BlockTokens(blocks[0])) else Fold(p, BlockTokens(blocks[0]));
      ScopedFold(q, blocks[1..], !inside)
  }

  /** The corrected `_parse_style`. */
  function ScopedParse(style: string): StyleFields {
    ScopedFold(NoFields, Blocks(style), false)
  }

  /** A token that is neither a colour nor a background rule leaves both fields as they were. */
  lemma InnerStepFrame(q: StyleFields, t: string, x: Option<string>, y: Option<string>)
    requires RuleOf(t) != ColorRule && RuleOf(t) != BackgroundRule
    ensures Step(q.(color := x, background := y), t) == Step(q, t).(color := x, background := y)
  {
    StepFrame(q, t);
    StepFrame(q.(color := x, background := y), t);
    OwnFields(t);
    RuleOfPrefixes(t);
  }

  /**
   * Inside a block the colour and background are kept and every other
   * field is read as `_parse_style` reads it.
   */
  lemma {:induction false} InnerFoldLaw(p: StyleFields, tokens: seq<string>)
    ensures InnerFold(p, tokens) == Fold(p, tokens).(color := p.color, background := p.background)
  {
    if tokens != [] {
      var n := |tokens| - 1;
      var t := tokens[n];
      InnerFoldLaw(p, tokens[..n]);
      var q := Fold(p, tokens[..n]);
      if RuleOf(t) == ColorRule {
        assert Step(q, t) == q.(color := Some(ValueOf(t)));
      } else if RuleOf(t) == BackgroundRule {
        assert Step(q, t) == q.(background := Some(ValueOf(t)));
      } else {
        InnerStepFrame(q, t, p.color, p.background);
      }
    }
  }

  /** One block ahead of the rest. */
  lemma ScopedCons(p: StyleFields, b: string, rest: seq<string>, inside: bool)
    ensures ScopedFold(p, [b] + rest, inside)
         == ScopedFold(if inside then InnerFold(p, BlockTokens(b)) else Fold(p, BlockTokens(b)), rest, !inside)
  {
    assert ([b] + rest)[0] == b && ([b] + rest)[1..] == rest;
  }

  /** A style without braces is one outside block, read exactly as `_parse_style` reads it. */
  lemma ScopedAgrees(style: string)
    requires '{' !in style && '}' !in style
    ensures ScopedParse(style) == ParsedStyle(style)
  {
    ReplaceAbsent(style, '}', '{');
    Text.SplitWhole(style, '{');
    assert Blocks(style) == [style] + [];
    BracesAbsent(style);
    assert Tokens(style) == BlockTokens(style);
    ScopedCons(NoFields, style, [], false);
  }

  /** Closing braces become opening ones, so the built text is its two halves, each followed by `{`. */
  lemma CurlyAround(o: string, i: string)
    requires '{' !in o && '}' !in o && '{' !in i && '}' !in i
    ensures Text.ReplaceChar(o + "{" + i + "}", '}', '{') == o + "{" + i + "{"
  {
    ReplaceAppend(o + "{" + i, "}", '}', '{');
    ReplaceAppend(o + "{", i, '}', '{');
    ReplaceAppend(o, "{", '}', '{');
    ReplaceAbsent(o, '}', '{');
    ReplaceAbsent(i, '}', '{');
    assert Text.ReplaceChar("{", '}', '{')[0] == '{' && Text.ReplaceChar("}", '}', '{')[0] == '{';
  }

  /** The blocks of the built text: the base rules, the hover block and the empty tail. */
  lemma BuiltBlocks(c: string, h: string)
    requires Plain(c) && Plain(h)
    ensures Blocks(Outer(c) + "{" + Inner(h) + "}") == [Outer(c)] + ([Inner(h)] + [""])
  {
    OuterNoBraces(c);
    InnerNoBraces(h);
    CurlyAround(Outer(c), Inner(h));
    assert Outer(c) + "{" + Inner(h) + "{" == Outer(c) + ['{'] + (Inner(h) + ['{'] + "");
    Text.SplitFirst(Outer(c), Inner(h) + ['{'] + "", '{');
    Text.SplitFirst(Inner(h), "", '{');
    Text.SplitWhole("", '{');
  }

  /** Regrouping the base rule and the selector at their `;`. */
  lemma RegroupOuter(p0: string, nl: string, sel: string, sp: string, selsp: string)
    requires selsp == sel + sp
    ensures (p0 + ";") + nl + selsp == Semi(p0, nl + sel + sp)
  {
  }

  /** Regrouping the inside of the hover block at its `;`s. */
  lemma RegroupInner(sp: string, x2: string, hc: string, hc1: string, h: string, hbg: string, hbg1: string)
    requires hc1 == sp + hc && hbg1 == sp + hbg
    ensures sp + (x2 + ";") + hc1 + h + ";" + hbg1 + ";" + sp == Semi(sp + x2, Semi(sp + (hc + h), Semi(sp + hbg, sp)))
  {
  }

  /** The rules of the block outside the braces: the base colour and the selector. */
  lemma OuterTokens(c: string)
    requires Plain(c)
    ensures BlockTokens(Outer(c)) == [BaseToken(c)] + ["QPushButton:hover"]
  {
    LiteralPieces();
    RegroupOuter("color: " + c, "\n", "QPushButton:hover", " ", "QPushButton:hover ");
    assert ';' !in Selector;
    SplitSemi(BaseToken(c), Selector);
    Text.SplitWhole(Selector, ';');
    StripPieces(c, c);
    CleanCons(Selector, []);
    CleanCons(BaseToken(c), [Selector]);
  }

  /** The inside of the hover block split at its `;`s. */
  lemma InnerSplit(h: string)
    requires Plain(h)
    ensures Text.Split(Inner(h), ';') == [HoverColorPiece(h)] + ([HoverTextPiece(h)] + ([HoverBackgroundPiece] + [" "]))
  {
    LiteralPieces();
    RegroupInner(" ", "color: " + h, "hover-color:", " hover-color:", h, "hover-background:", " hover-background:");
    assert ';' !in HoverBackgroundPiece;
    SplitSemi(HoverColorPiece(h), Semi(HoverTextPiece(h), Semi(HoverBackgroundPiece, " ")));
    SplitSemi(HoverTextPiece(h), Semi(HoverBackgroundPiece, " "));
    SplitSemi(HoverBackgroundPiece, " ");
    Text.SplitWhole(" ", ';');
  }

  /** Four pieces, the last one blank, cleaned: the three stripped pieces remain. */
  lemma CleanInner(a2: string, a3: string, a4: string, a5: string, t2: string, t3: string, t4: string)
    requires Text.Strip(a2) == t2 && Text.Strip(a3) == t3 && Text.Strip(a4) == t4 && Text.Strip(a5) == ""
    requires t2 != "" && t3 != "" && t4 != ""
    ensures Clean([a2] + ([a3] + ([a4] + [a5]))) == [t2] + ([t3] + [t4])
  {
    CleanCons(a5, []);
    CleanCons(a4, [a5]);
    CleanCons(a3, [a4] + [a5]);
    CleanCons(a2, [a3] + ([a4] + [a5]));
  }

  /** The rules inside the hover block: its colour, `hover-color:` and `hover-background:`. */
  lemma InnerTokens(h: string)
    requires Plain(h)
    ensures BlockTokens(Inner(h)) == ["color: " + h] + (["hover-color:" + h] + ["hover-background:"])
  {
    InnerSplit(h);
    StripPieces(h, h);
    CleanInner(HoverColorPiece(h), HoverTextPiece(h), HoverBackgroundPiece, " ",
               "color: " + h, "hover-color:" + h, "hover-background:");
  }

  /** The corrected reading gives the base colour and the hover colour back as the designer wrote them. */
  lemma ScopedRoundTrip(c: string, h: string)
    requires Plain(c) && Plain(h)
    ensures BuildStyle(None, ColorWidgets(c, h)).Some?
    ensures ScopedParse(BuildStyle(None, ColorWidgets(c, h)).value)
         == NoFields.(color := Some(c), hoverText := Some(h), hoverBackground := Some(""))
  {
    BuiltText(c, h);
    BuiltBlocks(c, h);
    OuterTokens(c);
    InnerTokens(h);
    assert BlockTokens("") == [] by {
      Text.SplitWhole("", ';');
      CleanCons("", []);
      assert Text.TrimLeft("") == "" && Text.TrimRight("") == "";
    }
    ColorToken(c);
    ColorToken(h);
    HoverTextToken(h);
    SelectorToken();
    HoverBackgroundToken();
    var f0 := Fold(NoFields, BlockTokens(Outer(c)));
    FoldCons(NoFields, BaseToken(c), ["QPushButton:hover"]);
    FoldCons(Step(NoFields, BaseToken(c)), "QPushButton:hover", []);
    assert f0 == NoFields.(color := Some(c));
    InnerFoldLaw(f0, BlockTokens(Inner(h)));
    var f1 := Step(f0, "color: " + h);
    var f2 := Step(f1, "hover-color:" + h);
    FoldCons(f0, "color: " + h, ["hover-color:" + h] + ["hover-background:"]);
    FoldCons(f1, "hover-color:" + h, ["hover-background:"]);
    FoldCons(f2, "hover-background:", []);
    var g := InnerFold(f0, BlockTokens(Inner(h)));
    assert g == NoFields.(color := Some(c), hoverText := Some(h), hoverBackground := Some(""));
    ScopedCons(NoFields, Outer(c), [Inner(h)] + [""], false);
    ScopedCons(f0, Inner(h), [""], true);
    ScopedCons(g, "", [], false);
  }
}
