/**
 * Grouping the characters of a PDF text layer into words
 * (compare_engine.py, `extract_text_groups`). The `rawdict` structure is
 * passed in as values: blocks hold lines, lines hold spans, spans hold
 * characters, each with an optional character and an optional box.
 */
module EngineGroups {
  import opened Wrappers
  import opened Geometry
  import opened Text

  /** One `char` entry: its `c` and its `bbox`, either of which may be missing. */
  datatype RawChar = RawChar(c: Option<char>, bbox: Option<RRect>)

  type Span = seq<RawChar>

  /** A block: its `type` (None when absent) and its lines of spans. */
  datatype Block = Block(kind: Option<int>, lines: seq<seq<Span>>)

  /** `TextGroup`. */
  datatype TextGroup = TextGroup(text: string, bbox: RRect)

  /** A character that takes part in grouping: both fields present. */
  predicate Usable(ch: RawChar) { ch.c.Some? && ch.bbox.Some? }

  /**
   * The scanner state after a prefix of a span: the groups already closed,
   * the characters of the open group and, when it is non-empty, the bounds
   * of their boxes (the source starts these at +/- infinity, which the first
   * character's box replaces).
   */
  datatype Scan = Scan(groups: seq<TextGroup>, cur: string, bounds: RRect)

  /** The group the open characters form, its box scaled by `(sx, sy)`. */
  function Close(st: Scan, sx: real, sy: real): TextGroup {
    TextGroup(st.cur, Scaled(st.bounds, sx, sy))
  }

  /** `(min_x * scale_x, min_y * scale_y, max_x * scale_x, max_y * scale_y)`. */
  function Scaled(b: RRect, sx: real, sy: real): RRect {
    RRect(b.x0 * sx, b.y0 * sy, b.x1 * sx, b.y1 * sy)
  }

  /** The bounds after adding box `b` to the open group. */
  function Grow(st: Scan, b: RRect): RRect {
    if st.cur == [] then b
    else RRect(MinR(st.bounds.x0, b.x0), MinR(st.bounds.y0, b.y0), MaxR(st.bounds.x1, b.x1), MaxR(st.bounds.y1, b.y1))
  }

  /** One character of the scan. */
  function Step(st: Scan, ch: RawChar, sx: real, sy: real): Scan {
    if !Usable(ch) then st
    else if IsSpace(ch.c.value) then
      (if st.cur != [] then Scan(st.groups + [Close(st, sx, sy)], [], st.bounds) else st)
    else Scan(st.groups, st.cur + [ch.c.value], Grow(st, ch.bbox.value))
  }

  /** The state after scanning `chars`. */
  function ScanOf(chars: Span, sx: real, sy: real): Scan {
    if chars == [] then Scan([], [], RRect(0.0, 0.0, 0.0, 0.0))
    else Step(ScanOf(chars[..|chars| - 1], sx, sy), chars[|chars| - 1], sx, sy)
  }

  /** The groups of one span: the closed ones, then the open one if any. */
  function SpanGroups(chars: Span, sx: real, sy: real): seq<TextGroup> {
    var st := ScanOf(chars, sx, sy);
    st.groups + (if st.cur != [] then [Close(st, sx, sy)] else [])
  }

  /** The inner loop of `extract_text_groups` over one span's characters. */
  method GroupSpan(chars: Span, sx: real, sy: real) returns (groups: seq<TextGroup>)
    ensures groups == SpanGroups(chars, sx, sy)
  {
    groups := [];
    var current: string := [];
    var minX, minY, maxX, maxY := 0.0, 0.0, 0.0, 0.0;
    var i := 0;
    while i < |chars|
      invariant 0 <= i <= |chars|
      invariant groups == ScanOf(chars[..i], sx, sy).groups
      invariant current == ScanOf(chars[..i], sx, sy).cur
      invariant current != [] ==> RRect(minX, minY, maxX, maxY) == ScanOf(chars[..i], sx, sy).bounds
    {
      assert chars[..i + 1][..i] == chars[..i];
      var ch := chars[i];
      i := i + 1;
      if ch.c.None? || ch.bbox.None? {
        continue;
      }
      var c := ch.c.value;
      if IsSpace(c) {
        if current != [] {
          groups := groups + [TextGroup(current, Scaled(RRect(minX, minY, maxX, maxY), sx, sy))];
          current := [];
        }
        continue;
      }
      var b := ch.bbox.value;
      // min(inf, v) is v: an empty group takes the first box as its bounds.
      if current == [] {
        minX, minY, maxX, maxY := b.x0, b.y0, b.x1, b.y1;
      } else {
        minX, minY := MinR(minX, b.x0), MinR(minY, b.y0);
        maxX, maxY := MaxR(maxX, b.x1), MaxR(maxY, b.y1);
      }
      current := current + [c];
    }
    assert chars[..i] == chars;
    if current != [] {
      groups := groups + [TextGroup(current, Scaled(RRect(minX, minY, maxX, maxY), sx, sy))];
    }
  }

  /** The characters of `chars` that end up in groups: the usable, non-space ones, in order. */
  function Letters(chars: Span): string {
    if chars == [] then []
    else
      var ch := chars[|chars| - 1];
      Letters(chars[..|chars| - 1]) + (if Usable(ch) && !IsSpace(ch.c.value) then [ch.c.value] else [])
  }

  function GroupTexts(gs: seq<TextGroup>): string {
    if gs == [] then [] else GroupTexts(gs[..|gs| - 1]) + gs[|gs| - 1].text
  }

  lemma GroupTextsAppend(gs: seq<TextGroup>, g: TextGroup)
    ensures GroupTexts(gs + [g]) == GroupTexts(gs) + g.text
  {
    assert (gs + [g])[..|gs|] == gs;
  }

  /** The scan keeps its invariant: closed groups are words, the open part has no space, and no letter is lost. */
  lemma {:induction false} ScanLaws(chars: Span, sx: real, sy: real)
    ensures var st := ScanOf(chars, sx, sy);
            (forall g :: g in st.groups ==> IsWord(g.text))
            && NoSpace(st.cur)
            && GroupTexts(st.groups) + st.cur == Letters(chars)
  {
    if chars != [] {
      var init := chars[..|chars| - 1];
      var ch := chars[|chars| - 1];
      ScanLaws(init, sx, sy);
      var st := ScanOf(init, sx, sy);
      if Usable(ch) && IsSpace(ch.c.value) && st.cur != [] {
        GroupTextsAppend(st.groups, Close(st, sx, sy));
      }
      if Usable(ch) && !IsSpace(ch.c.value) {
        assert GroupTexts(st.groups) + (st.cur + [ch.c.value]) == (GroupTexts(st.groups) + st.cur) + [ch.c.value];
      }
    }
  }

  /**
   * The groups of a span are non-empty and hold no whitespace, and their
   * texts concatenated are the span's usable non-space characters in order.
   */
  lemma SpanGroupsLaws(chars: Span, sx: real, sy: real)
    ensures forall g :: g in SpanGroups(chars, sx, sy) ==> IsWord(g.text)
    ensures GroupTexts(SpanGroups(chars, sx, sy)) == Letters(chars)
  {
    ScanLaws(chars, sx, sy);
    var st := ScanOf(chars, sx, sy);
    if st.cur != [] {
      GroupTextsAppend(st.groups, Close(st, sx, sy));
      assert forall g :: g in st.groups + [Close(st, sx, sy)] ==> g in st.groups || g == Close(st, sx, sy);
    } else {
      assert st.groups + [] == st.groups;
    }
  }

  /** The spans of the text blocks (`type == 0`), in block, line and span order. */
  function SpansOf(blocks: seq<Block>): seq<Span> {
    if blocks == [] then []
    else
      var b := blocks[|blocks| - 1];
      SpansOf(blocks[..|blocks| - 1]) + (if b.kind == Some(0) then Flatten(b.lines) else [])
  }

  function Flatten(lines: seq<seq<Span>>): seq<Span> {
    if lines == [] then [] else Flatten(lines[..|lines| - 1]) + lines[|lines| - 1]
  }

  /** The groups of all the spans, in order. */
  function GroupsOf(spans: seq<Span>, sx: real, sy: real): seq<TextGroup> {
    if spans == [] then [] else GroupsOf(spans[..|spans| - 1], sx, sy) + SpanGroups(spans[|spans| - 1], sx, sy)
  }

  /** `extract_text_groups`; `scale_y` defaults to `scale_x`. */
  method ExtractTextGroups(blocks: seq<Block>, scaleX: real, scaleY: Option<real>) returns (groups: seq<TextGroup>)
    ensures groups == GroupsOf(SpansOf(blocks), scaleX, if scaleY.Some? then scaleY.value else scaleX)
  {
    var sy := if scaleY.Some? then scaleY.value else scaleX;
    var spans := SpansOf(blocks);
    groups := [];
    var i := 0;
    while i < |spans|
      invariant 0 <= i <= |spans| && groups == GroupsOf(spans[..i], scaleX, sy)
    {
      assert spans[..i + 1][..i] == spans[..i];
      var g := GroupSpan(spans[i], scaleX, sy);
      groups := groups + g;
      i := i + 1;
    }
    assert spans[..i] == spans;
  }

  /** Every group of a page is a word, and the groups are the concatenation of the span groups. */
  lemma {:induction false} GroupsOfWords(spans: seq<Span>, sx: real, sy: real)
    ensures forall g :: g in GroupsOf(spans, sx, sy) ==> IsWord(g.text)
  {
    if spans != [] {
      GroupsOfWords(spans[..|spans| - 1], sx, sy);
      SpanGroupsLaws(spans[|spans| - 1], sx, sy);
    }
  }

  /** Blocks of any type other than 0 contribute no spans. */
  lemma {:induction false} SpansSkipNonText(blocks: seq<Block>)
    requires forall i :: 0 <= i < |blocks| ==> blocks[i].kind != Some(0)
    ensures SpansOf(blocks) == []
  {
    if blocks != [] {
      SpansSkipNonText(blocks[..|blocks| - 1]);
    }
  }
}
