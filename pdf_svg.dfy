/**
 * The SVG-based comparison of pdf_svg_compare.py: the element boxes of
 * each page pair are compared by IoU (the same loop as comparador.py), the
 * result is kept per page index; SVG elements are given a bounding box
 * from their attributes, and those that meet a difference are recoloured
 * through their `style` or their `stroke` and `fill` attributes. The boxes
 * of each page are passed in; the SVG tree is passed in element by element.
 */
module PdfSvg {
  import opened Wrappers
  import opened Geometry
  import opened Text
  import opened VectorMatch
  import Comparador

  // ---------------------------------------------------------------- pages

  /** The IoU threshold `compare_pdfs` passes to `_compare_elements`. */
  const Threshold: real := 0.9

  /**
   * `compare_pdfs`: one entry per page index below the larger page count,
   * a missing page compared as an empty box list.
   */
  method ComparePdfs(oldPages: seq<seq<RRect>>, newPages: seq<seq<RRect>>)
    returns (result: map<nat, (seq<RRect>, seq<RRect>)>)
    ensures forall i: nat :: i in result <==> i < Comparador.PageCount(oldPages, newPages)
    ensures forall i: nat :: i in result ==>
              result[i] == PlainSpec(Comparador.BoxesOn(oldPages, i), Comparador.BoxesOn(newPages, i), Threshold)
  {
    result := map[];
    var maxPages := Comparador.PageCount(oldPages, newPages);
    var i := 0;
    while i < maxPages
      invariant 0 <= i <= maxPages
      invariant forall p: nat :: p in result <==> p < i
      invariant forall p: nat :: p in result ==>
                  result[p] == PlainSpec(Comparador.BoxesOn(oldPages, p), Comparador.BoxesOn(newPages, p), Threshold)
    {
      var oldBoxes := if i < |oldPages| then oldPages[i] else [];
      var newBoxes := if i < |newPages| then newPages[i] else [];
      var removed, added := ComparePlain(oldBoxes, newBoxes, Threshold);
      result := result[i := (removed, added)];
      i := i + 1;
    }
  }

  /** A page only one document has: its boxes are all removed, or all added. */
  lemma MissingPage(oldPages: seq<seq<RRect>>, newPages: seq<seq<RRect>>, i: nat)
    requires i < Comparador.PageCount(oldPages, newPages)
    ensures i >= |newPages| ==>
              PlainSpec(Comparador.BoxesOn(oldPages, i), Comparador.BoxesOn(newPages, i), Threshold) == (oldPages[i], [])
    ensures i >= |oldPages| ==>
              PlainSpec(Comparador.BoxesOn(oldPages, i), Comparador.BoxesOn(newPages, i), Threshold) == ([], newPages[i])
  {
    PlainMissingPage(Comparador.BoxesOn(oldPages, i), Comparador.BoxesOn(newPages, i), Threshold);
  }

  // ---------------------------------------------------------------- numbers in attributes

  predicate IsDigit(c: char) { '0' <= c <= '9' }

  /** The end of the run of digits starting at `i`. */
  function DigitEnd(s: string, i: nat): (e: nat)
    requires i <= |s|
    ensures i <= e <= |s| && AllDigits(s[i..e]) && (e < |s| ==> !IsDigit(s[e]))
    decreases |s| - i
  {
    if i < |s| && IsDigit(s[i]) then
      var e := DigitEnd(s, i + 1);
      assert s[i..e] == [s[i]] + s[i + 1..e];
      e
    else i
  }

  /** Where a match of `-?\d+(?:\.\d+)?` can start. */
  predicate StartsToken(s: string, i: nat) {
    i < |s| && (IsDigit(s[i]) || (s[i] == '-' && i + 1 < |s| && IsDigit(s[i + 1])))
  }

  /** A match, in its three parts: the sign, the whole digits and the optional fraction digits. */
  datatype Token = Token(neg: bool, whole: string, frac: Option<string>)

  /** The text of a match. */
  function TokenText(t: Token): string {
    (if t.neg then "-" else "") + t.whole + (if t.frac.Some? then "." + t.frac.value else "")
  }

  /** The shape the pattern demands: at least one whole digit, and at least one fraction digit after a dot. */
  predicate WellFormed(t: Token) {
    t.whole != [] && AllDigits(t.whole) && (t.frac.Some? ==> t.frac.value != [] && AllDigits(t.frac.value))
  }

  /** The longest match starting at `i`, and where it ends: a fraction is taken only when a digit follows the dot. */
  function TokenAt(s: string, i: nat): (r: (Token, nat))
    requires StartsToken(s, i)
    ensures i < r.1 <= |s| && WellFormed(r.0)
  {
    var neg := s[i] == '-';
    var st := if neg then i + 1 else i;
    var d := DigitEnd(s, st);
    if d + 1 < |s| && s[d] == '.' && IsDigit(s[d + 1]) then
      var e := DigitEnd(s, d + 1);
      (Token(neg, s[st..d], Some(s[d + 1..e])), e)
    else (Token(neg, s[st..d], None), d)
  }

  /** `re.findall(r"-?\d+(?:\.\d+)?", s[i:])`, each match in its parts. */
  function FindTokens(s: string, i: nat): (ts: seq<Token>)
    ensures forall t :: t in ts ==> WellFormed(t)
    decreases |s| - i
  {
    if i >= |s| then []
    else if StartsToken(s, i) then
      var r := TokenAt(s, i);
      [r.0] + FindTokens(s, r.1)
    else FindTokens(s, i + 1)
  }

  lemma {:induction false} IndexOfAppend(a: string, b: string, c: char)
    requires forall j :: 0 <= j < |a| ==> a[j] != c
    ensures IndexOf(a + b, c) == |a| + IndexOf(b, c)
  {
    if a != [] {
      assert (a + b)[0] == a[0] != c;
      assert IndexOf(a + b, c) == 1 + IndexOf((a + b)[1..], c);
      assert forall j :: 0 <= j < |a| - 1 ==> a[1..][j] == a[j + 1];
      IndexOfAppend(a[1..], b, c);
      assert (a + b)[1..] == a[1..] + b;
    } else {
      assert a + b == b;
    }
  }

  lemma IndexOfNone(a: string, c: char)
    requires forall j :: 0 <= j < |a| ==> a[j] != c
    ensures IndexOf(a, c) == |a|
  {
  }

  /** The unsigned part of a match is read as `whole.frac` by `float`. */
  lemma UnsignedParses(t: Token)
    requires WellFormed(t)
    ensures var u := Unsigned(t);
            IndexOf(u, 'e') == |u| && IndexOf(u, 'E') == |u| && ParseUnsignedDecimal(u).Some?
  {
    var u := Unsigned(t);
    IndexOfAppend(t.whole, if t.frac.Some? then "." + t.frac.value else "", '.');
    if t.frac.Some? {
      var f := t.frac.value;
      assert ("." + f)[1..] == f;
      assert u[|t.whole| + 1..] == f;
      assert u[..|t.whole|] == t.whole;
    } else {
      assert u == t.whole;
    }
    forall j | 0 <= j < |u|
      ensures u[j] != 'e' && u[j] != 'E'
    {
      if j < |t.whole| {
        assert u[j] == t.whole[j];
      } else if t.frac.Some? && j > |t.whole| {
        assert u[j] == t.frac.value[j - |t.whole| - 1];
      }
    }
    IndexOfNone(u, 'e');
    IndexOfNone(u, 'E');
  }

  /** The unsigned part of a match. */
  function Unsigned(t: Token): string {
    t.whole + (if t.frac.Some? then "." + t.frac.value else "")
  }

  lemma TokenSign(t: Token)
    requires WellFormed(t)
    ensures Sign(TokenText(t)).1 == Unsigned(t)
  {
    var u := Unsigned(t);
    assert u[0] == t.whole[0];
    if t.neg {
      assert TokenText(t) == "-" + u;
    } else {
      assert TokenText(t) == u;
    }
  }

  /** `float` of a match never fails. */
  lemma TokenParses(t: Token)
    requires WellFormed(t)
    ensures ParseFloat(TokenText(t)).Some?
  {
    UnsignedParses(t);
    TokenSign(t);
    ParseFloatMantissa(TokenText(t));
  }

  /** `list(map(float, tokens))`: None when some token does not read as a float. */
  function FloatsOf(tokens: seq<string>): (r: Option<seq<real>>)
    ensures r.Some? ==> |r.value| == |tokens|
  {
    if tokens == [] then Some([])
    else
      var head := ParseFloat(tokens[0]);
      var tail := FloatsOf(tokens[1..]);
      if head.None? || tail.None? then None else Some([head.value] + tail.value)
  }

  /** The texts of the matches. */
  function Texts(ts: seq<Token>): (r: seq<string>)
    ensures |r| == |ts| && forall k :: 0 <= k < |ts| ==> r[k] == TokenText(ts[k])
  {
    seq(|ts|, k requires 0 <= k < |ts| => TokenText(ts[k]))
  }

  lemma {:induction false} FloatsOfTokens(ts: seq<Token>)
    requires forall t :: t in ts ==> WellFormed(t)
    ensures FloatsOf(Texts(ts)).Some?
  {
    if ts != [] {
      TokenParses(ts[0]);
      FloatsOfTokens(ts[1..]);
      assert Texts(ts)[1..] == Texts(ts[1..]);
    }
  }

  /** `[float(n) for n in re.findall(r"-?\d+(?:\.\d+)?", s)]`. */
  function Numbers(s: string): Option<seq<real>> {
    FloatsOf(Texts(FindTokens(s, 0)))
  }

  /** Reading the numbers of an attribute never fails: every match is a float. */
  lemma NumbersParse(s: string)
    ensures Numbers(s).Some? && |Numbers(s).value| == |FindTokens(s, 0)|
  {
    FloatsOfTokens(FindTokens(s, 0));
  }

  /** `nums[0::2]`. */
  function Evens(s: seq<real>): (r: seq<real>)
    ensures |r| == (|s| + 1) / 2 && forall k :: 0 <= k < |r| ==> r[k] == s[2 * k]
  {
    seq((|s| + 1) / 2, k requires 0 <= k < (|s| + 1) / 2 => s[2 * k])
  }

  /** `nums[1::2]`. */
  function Odds(s: seq<real>): (r: seq<real>)
    ensures |r| == |s| / 2 && forall k :: 0 <= k < |r| ==> r[k] == s[2 * k + 1]
  {
    seq(|s| / 2, k requires 0 <= k < |s| / 2 => s[2 * k + 1])
  }

  /** `min(xs)`. */
  function MinSeq(s: seq<real>): (r: real)
    requires s != []
    ensures r in s && forall x :: x in s ==> r <= x
  {
    if |s| == 1 then s[0]
    else
      var m := MinSeq(s[1..]);
      assert forall x :: x in s ==> x == s[0] || x in s[1..];
      MinR(s[0], m)
  }

  /** `max(xs)`. */
  function MaxSeq(s: seq<real>): (r: real)
    requires s != []
    ensures r in s && forall x :: x in s ==> x <= r
  {
    if |s| == 1 then s[0]
    else
      var m := MaxSeq(s[1..]);
      assert forall x :: x in s ==> x == s[0] || x in s[1..];
      MaxR(s[0], m)
  }

  // ---------------------------------------------------------------- element boxes

  /** An SVG element: its tag, possibly `{namespace}`-qualified, and its attributes. */
  datatype SvgElement = SvgElement(tag: string, attrs: map<string, string>)

  /** `el.get(key, default)`. */
  function Get(attrs: map<string, string>, key: string, default: string): string {
    if key in attrs then attrs[key] else default
  }

  /** `tag.split("}")[-1]`: the tag without its namespace. */
  function LocalName(tag: string): string {
    tag[LastIndex(tag, '}') + 1..]
  }

  /** `float(el.get(key, "0"))`, None when the conversion raises. */
  function Attr(attrs: map<string, string>, key: string): Option<real> {
    ParseFloat(Strip(Get(attrs, key, "0")))
  }

  /** `(x, y, x + w, y + h)` once all four numbers are read. */
  function RectOf(x: Option<real>, y: Option<real>, w: Option<real>, h: Option<real>): (b: Option<RRect>)
    ensures b.Some? <==> x.Some? && y.Some? && w.Some? && h.Some?
    ensures b.Some? ==> b.value.x0 == x.value && b.value.y0 == y.value
                        && b.value.Width() == w.value && b.value.Height() == h.value
  {
    if x.None? || y.None? || w.None? || h.None? then None
    else Some(RRect(x.value, y.value, x.value + w.value, y.value + h.value))
  }

  /** The min/max box of the two end points once all four numbers are read. */
  function LineOf(x1: Option<real>, y1: Option<real>, x2: Option<real>, y2: Option<real>): (b: Option<RRect>)
    ensures b.Some? <==> x1.Some? && y1.Some? && x2.Some? && y2.Some?
    ensures b.Some? ==>
              b.value == HullR(RRect(x1.value, y1.value, x1.value, y1.value), RRect(x2.value, y2.value, x2.value, y2.value))
              && b.value.x0 <= b.value.x1 && b.value.y0 <= b.value.y1
  {
    if x1.None? || y1.None? || x2.None? || y2.None? then None
    else Some(RRect(MinR(x1.value, x2.value), MinR(y1.value, y2.value), MaxR(x1.value, x2.value), MaxR(y1.value, y2.value)))
  }

  /** `(min(xs), min(ys), max(xs), max(ys))` of the alternating numbers, when both halves are non-empty. */
  function PointsOf(nums: Option<seq<real>>): Option<RRect> {
    if nums.None? then None
    else
      var xs, ys := Evens(nums.value), Odds(nums.value);
      if xs != [] && ys != [] then Some(RRect(MinSeq(xs), MinSeq(ys), MaxSeq(xs), MaxSeq(ys))) else None
  }

  /** The box of an element with local tag name `tag`. */
  function BoxOf(tag: string, attrs: map<string, string>): Option<RRect> {
    if tag == "rect" then RectOf(Attr(attrs, "x"), Attr(attrs, "y"), Attr(attrs, "width"), Attr(attrs, "height"))
    else if tag == "line" then LineOf(Attr(attrs, "x1"), Attr(attrs, "y1"), Attr(attrs, "x2"), Attr(attrs, "y2"))
    else if tag == "polyline" || tag == "polygon" then PointsOf(Numbers(Get(attrs, "points", "")))
    else if tag == "path" then PointsOf(Numbers(Get(attrs, "d", "")))
    else None
  }

  /** `_element_bbox`: a failed number conversion or another tag gives None. */
  function ElementBbox(el: SvgElement): Option<RRect> {
    BoxOf(LocalName(el.tag), el.attrs)
  }

  /** The namespace in front of a tag is dropped, so it does not change the box. */
  lemma BboxNamespace(ns: string, tag: string, attrs: map<string, string>)
    requires forall j :: 0 <= j < |tag| ==> tag[j] != '}'
    ensures LocalName(ns + "}" + tag) == tag && LocalName(tag) == tag
    ensures ElementBbox(SvgElement(ns + "}" + tag, attrs)) == ElementBbox(SvgElement(tag, attrs))
  {
    var full := ns + "}" + tag;
    assert full == ns + ['}'] + tag;
    LastIndexRight(ns, '}', tag);
    assert full[|ns| + 1..] == tag;
    assert tag[0..] == tag;
  }

  lemma LastIndexRight(p: string, c: char, q: string)
    requires forall j :: 0 <= j < |q| ==> q[j] != c
    ensures LastIndex(p + [c] + q, c) == |p|
  {
    var s := p + [c] + q;
    assert s[|p|] == c;
  }

  /**
   * The box of alternating numbers is well formed and holds every point:
   * each x (even place) between `x0` and `x1`, each y (odd place) between
   * `y0` and `y1`; there is one exactly when there are at least two numbers.
   */
  lemma PointsHold(nums: seq<real>)
    ensures PointsOf(Some(nums)).Some? <==> |nums| >= 2
    ensures var b := PointsOf(Some(nums));
            b.Some? ==> b.value.x0 <= b.value.x1 && b.value.y0 <= b.value.y1
                        && (forall k :: 0 <= k < |nums| && k % 2 == 0 ==> b.value.x0 <= nums[k] <= b.value.x1)
                        && (forall k :: 0 <= k < |nums| && k % 2 == 1 ==> b.value.y0 <= nums[k] <= b.value.y1)
  {
    var b := PointsOf(Some(nums));
    var xs, ys := Evens(nums), Odds(nums);
    if b.Some? {
      assert xs[0] in xs && ys[0] in ys;
      forall k | 0 <= k < |nums| && k % 2 == 0
        ensures b.value.x0 <= nums[k] <= b.value.x1
      {
        assert xs[k / 2] == nums[k];
        assert xs[k / 2] in xs;
      }
      forall k | 0 <= k < |nums| && k % 2 == 1
        ensures b.value.y0 <= nums[k] <= b.value.y1
      {
        assert ys[k / 2] == nums[k];
        assert ys[k / 2] in ys;
      }
    }
  }

  /** A polyline, polygon or path has a box exactly when its attribute holds at least two numbers. */
  lemma PointsAttr(s: string)
    ensures PointsOf(Numbers(s)).Some? <==> |FindTokens(s, 0)| >= 2
  {
    NumbersParse(s);
    PointsHold(Numbers(s).value);
  }

  /** Tags other than rect, line, polyline, polygon and path have no box. */
  lemma OtherTags(tag: string, attrs: map<string, string>)
    requires tag != "rect" && tag != "line" && tag != "polyline" && tag != "polygon" && tag != "path"
    ensures BoxOf(tag, attrs).None?
  {
  }

  // ---------------------------------------------------------------- recolouring

  /** The `parts` dict of `_style_set`, in insertion order. */
  type Parts = seq<(string, string)>

  /** The position of key `k`, or |parts|. */
  function KeyIndex(parts: Parts, k: string): (i: nat)
    ensures i <= |parts| && (i < |parts| ==> parts[i].0 == k)
    ensures forall j :: 0 <= j < i ==> parts[j].0 != k
  {
    if parts == [] then 0 else if parts[0].0 == k then 0 else 1 + KeyIndex(parts[1..], k)
  }

  predicate HasKey(parts: Parts, k: string) { KeyIndex(parts, k) < |parts| }

  function ValueOf(parts: Parts, k: string): string
    requires HasKey(parts, k)
  {
    parts[KeyIndex(parts, k)].1
  }

  /** `parts[k] = v`: an existing key keeps its place, a new one goes last. */
  function Put(parts: Parts, k: string, v: string): Parts {
    var i := KeyIndex(parts, k);
    if i < |parts| then parts[i := (k, v)] else parts + [(k, v)]
  }

  function Keys(parts: Parts): (ks: seq<string>)
    ensures |ks| == |parts| && forall i :: 0 <= i < |parts| ==> ks[i] == parts[i].0
  {
    seq(|parts|, i requires 0 <= i < |parts| => parts[i].0)
  }

  lemma KeyIndexAt(parts: Parts, k: string, i: nat)
    requires i < |parts| && parts[i].0 == k && forall j :: 0 <= j < i ==> parts[j].0 != k
    ensures KeyIndex(parts, k) == i
  {
  }

  /** After `parts[k] = v`, `k` holds `v`, the other keys keep their values, and the key order only grows at the end. */
  lemma PutLaws(parts: Parts, k: string, v: string)
    ensures HasKey(Put(parts, k, v), k) && ValueOf(Put(parts, k, v), k) == v
    ensures forall k' :: k' != k ==>
              (HasKey(Put(parts, k, v), k') <==> HasKey(parts, k'))
              && (HasKey(parts, k') ==> ValueOf(Put(parts, k, v), k') == ValueOf(parts, k'))
    ensures Keys(Put(parts, k, v)) == if HasKey(parts, k) then Keys(parts) else Keys(parts) + [k]
  {
    var r := Put(parts, k, v);
    var i := KeyIndex(parts, k);
    KeyIndexAt(r, k, if i < |parts| then i else |parts|);
    forall k' | k' != k
      ensures (HasKey(r, k') <==> HasKey(parts, k')) && (HasKey(parts, k') ==> ValueOf(r, k') == ValueOf(parts, k'))
    {
      KeyIndexPut(parts, k, v, k');
    }
  }

  lemma KeyIndexPut(parts: Parts, k: string, v: string, k': string)
    requires k' != k
    ensures KeyIndex(Put(parts, k, v), k') == KeyIndex(parts, k')
            || (KeyIndex(parts, k') == |parts| && KeyIndex(Put(parts, k, v), k') == |Put(parts, k, v)|)
  {
    var r := Put(parts, k, v);
    var i := KeyIndex(parts, k');
    var j := KeyIndex(r, k');
    if i < |parts| {
      assert r[i].0 == k';
    }
    if j < |r| && j < |parts| {
      assert parts[j].0 == k';
    }
  }

  /** The `parts` dict built from the `;`-separated items of a style: `key: value` items, both sides stripped. */
  function PartsOf(items: seq<string>): Parts {
    if items == [] then []
    else
      var n := |items| - 1;
      var prev := PartsOf(items[..n]);
      var it := items[n];
      var c := IndexOf(it, ':');
      if c < |it| then Put(prev, Strip(it[..c]), Strip(it[c + 1..])) else prev
  }

  /** The stroke and fill rules of `_style_set` on the parsed style. */
  function Recolor(parts: Parts, color: string): Parts {
    var p1 := if HasKey(parts, "stroke") then Put(parts, "stroke", color) else parts;
    if HasKey(p1, "fill") && ValueOf(p1, "fill") != "none" then Put(p1, "fill", color) else p1
  }

  /**
   * Recolouring keeps the keys and their order, gives `stroke` the colour
   * when present, gives `fill` the colour unless it is `none`, and keeps
   * every other value.
   */
  lemma RecolorLaws(parts: Parts, color: string)
    ensures var r := Recolor(parts, color);
            Keys(r) == Keys(parts)
            && (HasKey(parts, "stroke") ==> ValueOf(r, "stroke") == color)
            && (HasKey(parts, "fill") ==>
                  ValueOf(r, "fill") == if ValueOf(parts, "fill") == "none" then "none" else color)
            && (forall k :: k != "stroke" && k != "fill" ==>
                  (HasKey(r, k) <==> HasKey(parts, k)) && (HasKey(parts, k) ==> ValueOf(r, k) == ValueOf(parts, k)))
  {
    var p1 := if HasKey(parts, "stroke") then Put(parts, "stroke", color) else parts;
    if HasKey(parts, "stroke") {
      PutLaws(parts, "stroke", color);
    }
    if HasKey(p1, "fill") && ValueOf(p1, "fill") != "none" {
      PutLaws(p1, "fill", color);
    }
  }

  /** `";".join(f"{k}:{v}" for k, v in parts.items())`. */
  function StyleString(parts: Parts): string {
    Join(seq(|parts|, i requires 0 <= i < |parts| => parts[i].0 + ":" + parts[i].1), ";")
  }

  /** The attributes after `_style_set(color, el)`. */
  function StyleAttrs(color: string, attrs: map<string, string>): map<string, string> {
    if "style" in attrs && attrs["style"] != "" then
      attrs["style" := StyleString(Recolor(PartsOf(Split(attrs["style"], ';')), color))]
    else
      var a1 := if "stroke" in attrs then attrs["stroke" := color] else attrs;
      if "fill" in a1 && a1["fill"] != "none" then a1["fill" := color] else a1
  }

  /**
   * With a non-empty `style` only that attribute changes. Without one the
   * element keeps its attribute names, `stroke` takes the colour when
   * present, `fill` takes it when present and not `none`, and everything
   * else is kept.
   */
  lemma StyleAttrsLaws(color: string, attrs: map<string, string>)
    ensures StyleAttrs(color, attrs).Keys == attrs.Keys
    ensures "style" in attrs && attrs["style"] != "" ==>
              forall k :: k in attrs && k != "style" ==> StyleAttrs(color, attrs)[k] == attrs[k]
    ensures !("style" in attrs && attrs["style"] != "") ==>
              ("stroke" in attrs ==> StyleAttrs(color, attrs)["stroke"] == color)
              && ("fill" in attrs ==> StyleAttrs(color, attrs)["fill"] == if attrs["fill"] == "none" then "none" else color)
              && (forall k :: k in attrs && k != "stroke" && k != "fill" ==> StyleAttrs(color, attrs)[k] == attrs[k])
  {
  }

  /** An SVG element whose attributes `_style_set` rewrites in place. */
  class SvgNode {
    var tag: string
    var attrs: map<string, string>

    constructor (tag: string, attrs: map<string, string>)
      ensures this.tag == tag && this.attrs == attrs
    {
      this.tag := tag;
      this.attrs := attrs;
    }

    function Element(): SvgElement
      reads this
    {
      SvgElement(tag, attrs)
    }

    /** `_style_set(color, el)`. */
    method StyleSet(color: string)
      modifies this
      ensures tag == old(tag) && attrs == StyleAttrs(color, old(attrs))
    {
      if "style" in attrs && attrs["style"] != "" {
        var items := Split(attrs["style"], ';');
        var parts: Parts := [];
        var i := 0;
        while i < |items|
          invariant 0 <= i <= |items| && parts == PartsOf(items[..i])
        {
          assert items[..i + 1][..i] == items[..i];
          var item := items[i];
          var c := IndexOf(item, ':');
          if c < |item| {
            parts := Put(parts, Strip(item[..c]), Strip(item[c + 1..]));
          }
          i := i + 1;
        }
        assert items[..i] == items;
        if HasKey(parts, "stroke") {
          parts := Put(parts, "stroke", color);
        }
        if HasKey(parts, "fill") && ValueOf(parts, "fill") != "none" {
          parts := Put(parts, "fill", color);
        }
        attrs := attrs["style" := StyleString(parts)];
      } else {
        if "stroke" in attrs {
          attrs := attrs["stroke" := color];
        }
        if "fill" in attrs && attrs["fill"] != "none" {
          attrs := attrs["fill" := color];
        }
      }
    }
  }

  // ---------------------------------------------------------------- mode

  /** The check at the top of `generate_colored_comparison`. */
  function CheckMode(mode: string): (r: Result<()>)
    ensures r.Ok? <==> mode == "overlay" || mode == "split"
    ensures r.Err? ==> r.error == ValueError("mode must be 'overlay' or 'split'")
  {
    if mode !in {"overlay", "split"} then Err(ValueError("mode must be 'overlay' or 'split'")) else Ok(())
  }
}
