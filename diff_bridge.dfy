/**
 * Turning extracted objects and a diff map into recolouring targets
 * (src/compareset/core/diff_bridge.py, `build_targets`).
 */
module DiffBridge {
  import opened PdfTypes

  /** The target for an object with diff `d`: the object's fields and the diff. */
  function TargetOf(o: GraphicObject, d: DiffKind): (t: Target)
    ensures t.objId == o.objId && t.pageIndex == o.pageIndex && t.kind == o.kind && t.diff == d
    ensures t.paintMode == o.paintMode && t.streamRef == o.streamRef && t.opsHint == o.opsHint
  {
    Target(o.objId, o.pageIndex, o.kind, d, o.paintMode, o.streamRef, o.opsHint)
  }

  /** The targets of the objects, in order, skipping those whose id has no diff. */
  function TargetsSpec(objects: seq<GraphicObject>, diffMap: map<string, DiffKind>): seq<Target> {
    if objects == [] then []
    else
      var o := objects[|objects| - 1];
      TargetsSpec(objects[..|objects| - 1], diffMap)
        + (if o.objId in diffMap then [TargetOf(o, diffMap[o.objId])] else [])
  }

  /** `build_targets`. */
  method BuildTargets(objects: seq<GraphicObject>, diffMap: map<string, DiffKind>) returns (targets: seq<Target>)
    ensures targets == TargetsSpec(objects, diffMap)
  {
    targets := [];
    var i := 0;
    while i < |objects|
      invariant 0 <= i <= |objects| && targets == TargetsSpec(objects[..i], diffMap)
    {
      assert objects[..i + 1][..i] == objects[..i];
      var obj := objects[i];
      if obj.objId in diffMap {
        var diff := diffMap[obj.objId];
        targets := targets + [Target(obj.objId, obj.pageIndex, obj.kind, diff, obj.paintMode, obj.streamRef, obj.opsHint)];
      }
      i := i + 1;
    }
    assert objects[..i] == objects;
  }

  /**
   * Every target is the target of an object whose id the map holds, every
   * such object gives its target, and there are never more targets than
   * objects.
   */
  lemma {:induction false} TargetsShape(objects: seq<GraphicObject>, diffMap: map<string, DiffKind>)
    ensures var ts := TargetsSpec(objects, diffMap);
            |ts| <= |objects|
            && (forall t :: t in ts ==> exists o :: o in objects && o.objId in diffMap && t == TargetOf(o, diffMap[o.objId]))
            && (forall o :: o in objects && o.objId in diffMap ==> TargetOf(o, diffMap[o.objId]) in ts)
  {
    if objects != [] {
      var p := objects[..|objects| - 1];
      TargetsShape(p, diffMap);
      assert forall o :: o in p ==> o in objects;
      assert forall o :: o in objects ==> o in p || o == objects[|objects| - 1];
    }
  }

  /** An empty diff map gives no targets. */
  lemma {:induction false} TargetsEmptyMap(objects: seq<GraphicObject>)
    ensures TargetsSpec(objects, map[]) == []
  {
    if objects != [] {
      TargetsEmptyMap(objects[..|objects| - 1]);
    }
  }
}
