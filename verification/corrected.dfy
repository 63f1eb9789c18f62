/**
 The widget with its custom-mode copy loop bounded as evidently intended:
 `i < verts - 1`, the perimeter slots only, so the loop never indexes the
 anchor array at its own length. Every other step is the widget's own.
 */
module Corrected {
  import opened Runtime
  import opened Vectors
  import opened Fan
  import PolygonGraphic

  /** `Init` with the corrected custom loop bound. */
  function Init(p: PolygonGraphic.Polygon, place: PolygonGraphic.Placement): (r: PolygonGraphic.Initialized)
    requires PolygonGraphic.Valid(p)
    ensures PolygonGraphic.Valid(r.widget) && PolygonGraphic.ScaleStored(p, r.widget)
    ensures r.positions.Ok? ==>
      var n := PolygonGraphic.VertexCount(p);
      && n.Ok? && 0 <= n.value < MaxInt32
      && |r.positions.value| == n.value + 1 == |r.widget.radialScale|
      && r.positions.value[n.value] == Zero
  {
    match PolygonGraphic.VertexCount(p)
    case Err(e) => PolygonGraphic.Initialized(p, Err(e))
    case Ok(n) =>
      var verts := Inc32(n);
      match PolygonGraphic.ReconcileScale(p.radialScale, verts)
      case Err(e) => PolygonGraphic.Initialized(p, Err(e))
      case Ok(scale) =>
        var q := p.(radialScale := scale);
        var positions :=
          if q.autoMode then PolygonGraphic.AutoPositions(place, scale, verts)
          else PolygonGraphic.CopyAnchors(q.anchors, scale, verts, verts - 1);
        PolygonGraphic.Initialized(q, positions)
  }

  /** `OnPopulateMesh` over the corrected `Init`: custom mode now succeeds
      for every non-null anchor array that fits the 32-bit count. */
  function PopulateMesh(p: PolygonGraphic.Polygon, place: PolygonGraphic.Placement): (r: PolygonGraphic.Rebuilt)
    requires PolygonGraphic.Valid(p)
    ensures PolygonGraphic.Valid(r.widget) && PolygonGraphic.ScaleStored(p, r.widget)
    ensures r.mesh.Ok? <==>
      if p.autoMode then 0 <= p.autoVerts < MaxInt32
      else p.anchors.Some? && |p.anchors.value| < MaxInt32
    ensures r.mesh.Ok? ==>
      var n := PolygonGraphic.VertexCount(p).value;
      var m := r.mesh.value;
      && PolygonGraphic.VertexCount(p).Ok?
      && |m.vertices| == n + 1 == |r.widget.radialScale|
      && m.vertices[n] == Zero
      && |m.triangles| == (if n >= 2 then n - 2 else 0)
      && (forall t :: t in m.triangles ==> Distinct(t) && OnPerimeter(t, n))
      && forall i :: 0 <= i < |m.triangles| ==> m.triangles[i] == Tri(0, i + 1, i + 2)
  {
    var init := Init(p, place);
    match init.positions
    case Err(e) => PolygonGraphic.Rebuilt(init.widget, Err(e))
    case Ok(positions) =>
      var n := PolygonGraphic.VertexCount(init.widget).value;
      PolygonGraphic.Rebuilt(init.widget, Ok(PolygonGraphic.Mesh(positions[..n + 1], FanTriangles(n))))
  }

  /** Wherever the widget as written produces a mesh, the corrected widget
      produces the same mesh and the same state. */
  lemma AgreesWhereWrittenSucceeds(p: PolygonGraphic.Polygon, place: PolygonGraphic.Placement)
    requires PolygonGraphic.Valid(p) && PolygonGraphic.PopulateMesh(p, place).mesh.Ok?
    ensures PopulateMesh(p, place) == PolygonGraphic.PopulateMesh(p, place)
  {
    if !p.autoMode {
      var n := |p.anchors.value|;
      var scale := PolygonGraphic.ReconcileScale(p.radialScale, n + 1).value;
      StopAtCentroidOnSuccess(p.anchors, scale, n + 1);
    }
  }

  /** A copy loop that succeeded when bounded by `verts` produced the same
      buffer as one bounded by `verts - 1`: the slot it additionally wrote
      is the one zeroed afterwards. */
  lemma StopAtCentroidOnSuccess(anchors: Option<seq<Option<Vec>>>, scale: seq<real>, verts: int)
    requires |scale| == verts
    requires PolygonGraphic.CopyAnchors(anchors, scale, verts, verts).Ok?
    ensures PolygonGraphic.CopyAnchors(anchors, scale, verts, verts - 1)
         == PolygonGraphic.CopyAnchors(anchors, scale, verts, verts)
  {
    var written := PolygonGraphic.CopyAnchors(anchors, scale, verts, verts).value;
    var stopped := PolygonGraphic.CopyAnchors(anchors, scale, verts, verts - 1);
    assert stopped.Ok?;
    assert stopped.value == written;
  }

  /** With every anchor set, slot `i` of the corrected buffer is
      `anchor[i] * scale[i]` for each of the `n` anchors and the centroid
      slot `n` is the origin. */
  lemma AnchorsCopied(p: PolygonGraphic.Polygon, place: PolygonGraphic.Placement)
    requires PolygonGraphic.Valid(p) && !p.autoMode && p.anchors.Some? && |p.anchors.value| < MaxInt32
    requires forall j :: 0 <= j < |p.anchors.value| ==> p.anchors.value[j].Some?
    ensures
      var r := PopulateMesh(p, place);
      var a := p.anchors.value;
      && r.mesh.Ok?
      && |r.mesh.value.vertices| == |a| + 1
      && (forall i :: 0 <= i < |a| ==> r.mesh.value.vertices[i] == Scale(a[i].value, r.widget.radialScale[i]))
      && r.mesh.value.vertices[|a|] == Zero
  {
  }

  /** Three set anchors at (1,0), (0,1) and (-1,0) with scales 0.5, 1, 1, 1
      give the vertices (0.5,0), (0,1), (-1,0), the origin, and the single
      triangle (0, 1, 2). */
  lemma ThreeAnchorsTriangle(place: PolygonGraphic.Placement)
    ensures
      var p := PolygonGraphic.Polygon(false, 3,
        Some([Some(Vec(1.0, 0.0, 0.0)), Some(Vec(0.0, 1.0, 0.0)), Some(Vec(-1.0, 0.0, 0.0))]),
        [0.5, 1.0, 1.0, 1.0]);
      PopulateMesh(p, place).mesh == Ok(PolygonGraphic.Mesh(
        [Vec(0.5, 0.0, 0.0), Vec(0.0, 1.0, 0.0), Vec(-1.0, 0.0, 0.0), Zero],
        [Tri(0, 1, 2)]))
  {
    var a := [Some(Vec(1.0, 0.0, 0.0)), Some(Vec(0.0, 1.0, 0.0)), Some(Vec(-1.0, 0.0, 0.0))];
    var p := PolygonGraphic.Polygon(false, 3, Some(a), [0.5, 1.0, 1.0, 1.0]);
    AnchorsCopied(p, place);
    var r := PopulateMesh(p, place);
    assert r.widget.radialScale == [0.5, 1.0, 1.0, 1.0];
    var vs := r.mesh.value.vertices;
    assert vs[0] == Vec(0.5, 0.0, 0.0) && vs[1] == Vec(0.0, 1.0, 0.0) && vs[2] == Vec(-1.0, 0.0, 0.0);
    assert vs == [Vec(0.5, 0.0, 0.0), Vec(0.0, 1.0, 0.0), Vec(-1.0, 0.0, 0.0), Zero];
    assert FanTriangles(3) == [Tri(0, 1, 2)];
  }
}
