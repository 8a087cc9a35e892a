/**
 * Path objects of one page (src/compareset/core/extraction.py,
 * `extract_page_objects`), over the summaries `get_drawings` returns.
 */
module Extraction {
  import opened Wrappers
  import opened Geometry
  import opened Text
  import opened PdfTypes

  /** One `get_drawings` entry: its rect, "color", "fill", "width", "seqno" and the number of its "items". */
  datatype DrawingInfo = DrawingInfo(
    rect: RRect,
    color: Option<seq<real>>,
    fill: Option<seq<real>>,
    width: Option<real>,
    seqno: Option<int>,
    itemCount: nat)

  /** A colour entry is truthy when it is present and not the empty tuple. */
  predicate Painted(c: Option<seq<real>>) { c.Some? && c.value != [] }

  /** The paint mode of a drawing; None for one with neither stroke nor fill colour. */
  function PaintModeOf(d: DrawingInfo): (m: Option<PaintMode>)
    ensures m == Some(Both) <==> Painted(d.color) && Painted(d.fill)
    ensures m == Some(Stroke) <==> Painted(d.color) && !Painted(d.fill)
    ensures m == Some(Fill) <==> !Painted(d.color) && Painted(d.fill)
    ensures m == None <==> !Painted(d.color) && !Painted(d.fill)
  {
    if Painted(d.color) && Painted(d.fill) then Some(Both)
    else if Painted(d.color) then Some(Stroke)
    else if Painted(d.fill) then Some(Fill)
    else None
  }

  /** `f"p{page_index}_obj{seq}"`. */
  function ObjId(pageIndex: int, pos: nat): string {
    "p" + IntToString(pageIndex) + "_obj" + NatToString(pos)
  }

  /** Two drawings of one page never share an id. */
  lemma ObjIdUnique(pageIndex: int, a: nat, b: nat)
    requires ObjId(pageIndex, a) == ObjId(pageIndex, b)
    ensures a == b
  {
    var prefix := "p" + IntToString(pageIndex) + "_obj";
    assert ObjId(pageIndex, a) == prefix + NatToString(a);
    assert ObjId(pageIndex, b) == prefix + NatToString(b);
    assert NatToString(a) == ObjId(pageIndex, a)[|prefix|..];
    assert NatToString(b) == ObjId(pageIndex, b)[|prefix|..];
    NatToStringInjective(a, b);
  }

  /** The object built for the drawing at position `pos` with paint mode `mode`. */
  function MakeObject(pageIndex: int, pos: nat, d: DrawingInfo, mode: PaintMode): GraphicObject {
    GraphicObject(ObjId(pageIndex, pos), Path, pageIndex, d.rect, mode, d.width, d.color, d.fill,
                  [1, 0, 0, 1, 0, 0], "page:" + IntToString(pageIndex),
                  Some((if d.seqno.Some? then d.seqno.value else pos, d.itemCount)))
  }

  /** The objects of the first `n` drawings. */
  function ObjectsSpec(pageIndex: int, drawings: seq<DrawingInfo>, n: nat): seq<GraphicObject>
    requires n <= |drawings|
  {
    if n == 0 then []
    else
      var m := PaintModeOf(drawings[n - 1]);
      ObjectsSpec(pageIndex, drawings, n - 1) + (if m.Some? then [MakeObject(pageIndex, n - 1, drawings[n - 1], m.value)] else [])
  }

  /** `extract_page_objects` on the drawings of page `pageIndex`. */
  method ExtractPageObjects(pageIndex: int, drawings: seq<DrawingInfo>) returns (objects: seq<GraphicObject>)
    ensures objects == ObjectsSpec(pageIndex, drawings, |drawings|)
  {
    objects := [];
    var pos := 0;
    while pos < |drawings|
      invariant 0 <= pos <= |drawings| && objects == ObjectsSpec(pageIndex, drawings, pos)
    {
      var draw := drawings[pos];
      var paintMode: PaintMode;
      if Painted(draw.color) && Painted(draw.fill) {
        paintMode := Both;
      } else if Painted(draw.color) {
        paintMode := Stroke;
      } else if Painted(draw.fill) {
        paintMode := Fill;
      } else {
        pos := pos + 1;
        continue;
      }
      var obj := GraphicObject(ObjId(pageIndex, pos), Path, pageIndex, draw.rect, paintMode, draw.width,
                               draw.color, draw.fill, [1, 0, 0, 1, 0, 0], "page:" + IntToString(pageIndex),
                               Some((if draw.seqno.Some? then draw.seqno.value else pos, draw.itemCount)));
      objects := objects + [obj];
      pos := pos + 1;
    }
  }

  /** The object at position `k` came from the painted drawing at position `j`. */
  predicate FromDrawing(pageIndex: int, drawings: seq<DrawingInfo>, o: GraphicObject, j: nat)
  {
    j < |drawings| && PaintModeOf(drawings[j]).Some?
    && o == MakeObject(pageIndex, j, drawings[j], PaintModeOf(drawings[j]).value)
  }

  /** There are at most as many objects as drawings, and every painted drawing gives one. */
  lemma {:induction false} ObjectsShape(pageIndex: int, drawings: seq<DrawingInfo>, n: nat)
    requires n <= |drawings|
    ensures var objs := ObjectsSpec(pageIndex, drawings, n);
            |objs| <= n
            && (forall j :: 0 <= j < n && PaintModeOf(drawings[j]).Some? ==>
                  MakeObject(pageIndex, j, drawings[j], PaintModeOf(drawings[j]).value) in objs)
  {
    if n > 0 {
      ObjectsShape(pageIndex, drawings, n - 1);
      var p := ObjectsSpec(pageIndex, drawings, n - 1);
      var objs := ObjectsSpec(pageIndex, drawings, n);
      assert forall o :: o in p ==> o in objs;
    }
  }

  /** Object ids are distinct within a page. */
  lemma IdsDistinct(pageIndex: int, drawings: seq<DrawingInfo>)
    ensures var objs := ObjectsSpec(pageIndex, drawings, |drawings|);
            forall a, b :: 0 <= a < b < |objs| ==> objs[a].objId != objs[b].objId
  {
    IdsIncreasing(pageIndex, drawings, |drawings|);
    var objs := ObjectsSpec(pageIndex, drawings, |drawings|);
    forall a, b | 0 <= a < b < |objs| ensures objs[a].objId != objs[b].objId {
      var ja, jb := SeqOf(pageIndex, drawings, |drawings|, a), SeqOf(pageIndex, drawings, |drawings|, b);
      if objs[a].objId == objs[b].objId {
        ObjIdUnique(pageIndex, ja, jb);
      }
    }
  }

  /**
   * The drawing position an object was built from: a painted drawing whose
   * id, paint mode, box and hint it carries, with kind "path", the identity
   * matrix and the page's stream reference.
   */
  function SeqOf(pageIndex: int, drawings: seq<DrawingInfo>, n: nat, k: nat): (j: nat)
    requires n <= |drawings| && k < |ObjectsSpec(pageIndex, drawings, n)|
    ensures j < n && FromDrawing(pageIndex, drawings, ObjectsSpec(pageIndex, drawings, n)[k], j)
  {
    var p := ObjectsSpec(pageIndex, drawings, n - 1);
    if k < |p| then
      assert ObjectsSpec(pageIndex, drawings, n)[k] == p[k];
      SeqOf(pageIndex, drawings, n - 1, k)
    else n - 1
  }

  /** Later objects come from later drawings. */
  lemma {:induction false} IdsIncreasing(pageIndex: int, drawings: seq<DrawingInfo>, n: nat)
    requires n <= |drawings|
    ensures forall a, b :: 0 <= a < b < |ObjectsSpec(pageIndex, drawings, n)| ==>
              SeqOf(pageIndex, drawings, n, a) < SeqOf(pageIndex, drawings, n, b)
  {
    if n > 0 {
      IdsIncreasing(pageIndex, drawings, n - 1);
    }
  }
}
