/**
 * The records shared by extraction, the diff bridge and the stream editor
 * (src/compareset/core/types.py).
 */
module PdfTypes {
  import opened Wrappers
  import opened Geometry

  datatype Kind = Path | TextKind | XObject
  datatype DiffKind = Added | Removed | Changed
  datatype PaintMode = Stroke | Fill | Both

  /** An RGB colour as its three components. */
  type Rgb = (real, real, real)

  datatype GraphicObject = GraphicObject(
    objId: string,
    kind: Kind,
    pageIndex: int,
    bbox: RRect,
    paintMode: PaintMode,
    linewidth: Option<real>,
    strokeColor: Option<seq<real>>,
    fillColor: Option<seq<real>>,
    ctm: seq<int>,
    streamRef: string,
    opsHint: Option<(int, int)>)

  datatype Target = Target(
    objId: string,
    pageIndex: int,
    kind: Kind,
    diff: DiffKind,
    paintMode: PaintMode,
    streamRef: string,
    opsHint: Option<(int, int)>)
}
